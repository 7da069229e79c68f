/**
 * What reading a message into existing content means, without bytes: the reader's descriptor may
 * know fewer or more fields than the writer's, and what was there before is merged with, not lost.
 */
module Merge {
  import opened Bytes
  import opened Message
  import opened Wire

  // ----- Compatible descriptors

  /** The writer has every field the reader requires. */
  predicate Covers(fs: seq<Field>, gs: seq<Field>) {
    forall i :: 0 <= i < |fs| && fs[i].rule.Required? ==> HasTag(gs, fs[i].tag)
  }

  /** A field f that can read what a field g of the same tag writes. */
  predicate ReadsField(f: Field, g: Field)
    decreases g, 0
  {
    && (f.kind.Submessage? <==> g.kind.Submessage?)
    && (g.kind.Submessage? ==> Reads(f.kind.fields, g.kind.fields) && Covers(f.kind.fields, g.kind.fields))
    && (!g.kind.Submessage? ==> f.kind == g.kind && f.dataSize == g.dataSize)
    && (g.rule.Repeated? && IsNumeric(g.kind) ==> f.rule.Repeated?)
    && (f.rule.Required? ==> g.rule.Required?)
  }

  /** The two descriptors agree on the tags they share. */
  predicate Reads(fs: seq<Field>, gs: seq<Field>)
    decreases gs, 1
  {
    gs == [] || (ReadsTag(fs, gs[0]) && Reads(fs, gs[1..]))
  }

  predicate ReadsTag(fs: seq<Field>, g: Field)
    decreases g, 1
  {
    match IndexOf(fs, g.tag)
    case None => true
    case Some(i) => ReadsField(fs[i], g)
  }

  // ----- Merging

  /** The items of a field that are put on the wire. */
  function Emitted(g: Field, s: Slot): (vs: seq<Value>)
    requires TypedSlot(g, s)
    ensures forall i :: 0 <= i < |vs| ==> TypedValue(g, vs[i])
  {
    match g.rule
    case Required => [s.v]
    case Singular => if IsDefaultValue(g, s.v) then [] else [s.v]
    case Optional => if s.has then [s.v] else []
    case Repeated => s.items
  }

  /** Reading item v of g into the storage of f: a string ends at its NUL, submessages merge. */
  function MergeValue(f: Field, prior: Value, g: Field, v: Value): (r: Option<Value>)
    requires FieldOk(f) && FieldOk(g) && ReadsField(f, g) && TypedValue(f, prior) && TypedValue(g, v)
    ensures r.Some? ==> TypedValue(f, r.value)
    decreases g, 2
  {
    match g.kind
    case String => Some(Blob(v.data[..StrLen(v.data)]))
    case Submessage(gs) =>
      var p :- MergeFields(f.kind.fields, Progress(InitialSlots(f, prior), {}), gs, v.slots);
      Some(Msg(p.m))
    case _ => Some(v)
  }

  /** One more item for the slot of f: it replaces, is merged, or is appended if the array has room. */
  function Store(f: Field, slot: Slot, g: Field, v: Value): (r: Option<Slot>)
    requires FieldOk(f) && FieldOk(g) && ReadsField(f, g) && TypedSlot(f, slot) && TypedValue(g, v)
    ensures r.Some? ==> TypedSlot(f, r.value)
    decreases g, 3
  {
    match slot
    case One(prior) =>
      var x :- MergeValue(f, prior, g, v);
      Some(One(x))
    case Maybe(_, prior) =>
      var x :- MergeValue(f, prior, g, v);
      Some(Maybe(true, x))
    case Many(items) =>
      if |items| >= f.arraySize then None
      else
        DefaultTypedValue(f);
        var x :- MergeValue(f, DefaultValue(f), g, v);
        Some(Many(items + [x]))
  }

  function StoreAll(f: Field, slot: Slot, g: Field, vs: seq<Value>): (r: Option<Slot>)
    requires FieldOk(f) && FieldOk(g) && ReadsField(f, g) && TypedSlot(f, slot)
    requires forall i :: 0 <= i < |vs| ==> TypedValue(g, vs[i])
    ensures r.Some? ==> TypedSlot(f, r.value)
    decreases g, 4, vs
  {
    if vs == [] then Some(slot)
    else
      var next :- Store(f, slot, g, vs[0]);
      StoreAll(f, next, g, vs[1..])
  }

  /** Reading items of the writer's field g into the reader's message: no effect if it does not know the tag. */
  function Stored(fs: seq<Field>, p: Progress, g: Field, vs: seq<Value>): (r: Option<Progress>)
    requires FieldsOk(fs) && TypedMsg(fs, p.m) && FieldOk(g) && ReadsTag(fs, g)
    requires forall i :: 0 <= i < |vs| ==> TypedValue(g, vs[i])
    ensures r.Some? ==> TypedMsg(fs, r.value.m)
    decreases g, 5
  {
    match IndexOf(fs, g.tag)
    case None => Some(p)
    case Some(i) =>
      FieldsOkAt(fs, i);
      TypedAt(fs, p.m, i);
      var slot :- StoreAll(fs[i], p.m[i], g, vs);
      TypedUpdate(fs, p.m, i, slot);
      Some(Progress(p.m[i := slot], if vs == [] then p.seen else Seen(fs, p.seen, i)))
  }

  /** Reading the writer's fields one after the other; None when an array overflows. */
  function MergeFields(fs: seq<Field>, p: Progress, gs: seq<Field>, n: seq<Slot>): (r: Option<Progress>)
    requires FieldsOk(fs) && TypedMsg(fs, p.m) && FieldsOk(gs) && Reads(fs, gs) && TypedMsg(gs, n)
    ensures r.Some? ==> TypedMsg(fs, r.value.m)
    decreases gs, 6
  {
    if gs == [] then Some(p)
    else
      var q :- Stored(fs, p, gs[0], Emitted(gs[0], n[0]));
      MergeFields(fs, q, gs[1..], n[1..])
  }
}
