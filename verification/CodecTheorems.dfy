/**
 * What users of the codec rely on: round trips with every framing flag, descriptors that lack or add
 * fields, concatenated messages, and full use of the input.
 */
module CodecTheorems {
  import opened Bytes
  import opened Varint
  import opened Message
  import opened Wire
  import opened Merge
  import opened SchemaEvolution

  // ----- Merging, field by field

  lemma {:induction false} ReadsAt(fs: seq<Field>, gs: seq<Field>, k: nat)
    requires Reads(fs, gs) && k < |gs|
    ensures ReadsTag(fs, gs[k])
    decreases k
  {
    if k == 0 {
    } else {
      ReadsAt(fs, gs[1..], k - 1);
    }
  }

  /** The reader's field i after merging: its old content and the items of the writer's field of that tag. */
  function MergedSlot(fs: seq<Field>, m: seq<Slot>, gs: seq<Field>, n: seq<Slot>, i: nat): Option<Slot>
    requires FieldsOk(fs) && TypedMsg(fs, m) && FieldsOk(gs) && Reads(fs, gs) && TypedMsg(gs, n) && i < |fs|
  {
    FieldsOkAt(fs, i);
    TypedAt(fs, m, i);
    match IndexOf(gs, fs[i].tag)
    case None => Some(m[i])
    case Some(k) =>
      FieldsOkAt(gs, k);
      TypedAt(gs, n, k);
      ReadsAt(fs, gs, k);
      IndexOfUnique(fs, i);
      StoreAll(fs[i], m[i], gs[k], Emitted(gs[k], n[k]))
  }

  lemma MergedTail(fs: seq<Field>, p: Progress, gs: seq<Field>, n: seq<Slot>, i: nat)
    requires FieldsOk(fs) && TypedMsg(fs, p.m) && FieldsOk(gs) && Reads(fs, gs) && TypedMsg(gs, n) && i < |fs| &&
        gs != []
    ensures var q := Stored(fs, p, gs[0], Emitted(gs[0], n[0]));
            && (fs[i].tag == gs[0].tag ==> MergedSlot(fs, p.m, gs, n, i).Some? == q.Some?)
            && (q.Some? ==> MergedSlot(fs, q.value.m, gs[1..], n[1..], i) == MergedSlot(fs, p.m, gs, n, i))
  {
    hide StoreAll;
    IndexOfUnique(fs, i);
    if fs[i].tag != gs[0].tag {
      if HasTag(gs, fs[i].tag) {
        var k :| 0 <= k < |gs| && gs[k].tag == fs[i].tag;
        assert gs[1..][k - 1].tag == fs[i].tag;
      }
    }
  }

  /** Merging works on each field by itself, and fails only if one of them does. */
  lemma {:induction false} MergePointwise(fs: seq<Field>, p: Progress, gs: seq<Field>, n: seq<Slot>)
    requires FieldsOk(fs) && TypedMsg(fs, p.m) && FieldsOk(gs) && Reads(fs, gs) && TypedMsg(gs, n)
    ensures MergeFields(fs, p, gs, n).Some? <==> forall i :: 0 <= i < |fs| ==> MergedSlot(fs, p.m, gs, n, i).Some?
    ensures MergeFields(fs, p, gs, n).Some? ==>
              var m := MergeFields(fs, p, gs, n).value.m;
              |m| == |fs| && forall i :: 0 <= i < |fs| ==> m[i] == MergedSlot(fs, p.m, gs, n, i).value
    decreases gs
  {
    if gs == [] {
    } else {
      var q := Stored(fs, p, gs[0], Emitted(gs[0], n[0]));
      forall i | 0 <= i < |fs|
        ensures fs[i].tag == gs[0].tag ==> MergedSlot(fs, p.m, gs, n, i).Some? == q.Some?
        ensures q.Some? ==> MergedSlot(fs, q.value.m, gs[1..], n[1..], i) == MergedSlot(fs, p.m, gs, n, i)
      {
        MergedTail(fs, p, gs, n, i);
      }
      if q.Some? {
        MergePointwise(fs, q.value, gs[1..], n[1..]);
      } else {
        var i := IndexOf(fs, gs[0].tag).value;
        assert MergedSlot(fs, p.m, gs, n, i).None?;
      }
    }
  }

  // ----- What comes back

  /** A value as it reads back: strings end at their NUL, absent optional fields hold defaults. */
  function CanonValue(f: Field, v: Value): Value
    requires TypedValue(f, v)
    decreases f, 0
  {
    match f.kind
    case String => Blob(v.data[..StrLen(v.data)])
    case Submessage(fs) => Msg(CanonMsg(fs, v.slots))
    case _ => v
  }

  function CanonItems(f: Field, items: seq<Value>): (r: seq<Value>)
    requires forall i :: 0 <= i < |items| ==> TypedValue(f, items[i])
    ensures |r| == |items|
    decreases f, 1, items
  {
    if items == [] then [] else [CanonValue(f, items[0])] + CanonItems(f, items[1..])
  }

  function CanonSlot(f: Field, s: Slot): Slot
    requires TypedSlot(f, s)
    decreases f, 2
  {
    match f.rule
    case Required | Singular => One(CanonValue(f, s.v))
    case Optional => if s.has then Maybe(true, CanonValue(f, s.v)) else Maybe(false, DefaultValue(f))
    case Repeated => Many(CanonItems(f, s.items))
  }

  function CanonMsg(fs: seq<Field>, m: seq<Slot>): (r: seq<Slot>)
    requires TypedMsg(fs, m)
    ensures |r| == |fs|
    decreases fs, 3
  {
    if fs == [] then [] else [CanonSlot(fs[0], m[0])] + CanonMsg(fs[1..], m[1..])
  }

  lemma {:induction false} CanonAt(fs: seq<Field>, m: seq<Slot>, i: nat)
    requires TypedMsg(fs, m) && i < |fs|
    ensures TypedSlot(fs[i], m[i]) && CanonMsg(fs, m)[i] == CanonSlot(fs[i], m[i])
    decreases i
  {
    if i == 0 {
    } else {
      CanonAt(fs[1..], m[1..], i - 1);
    }
  }

  // ----- Compatible descriptors

  /** Two fields of one tag that hold the same, except for what sub-descriptors lack or add in turn. */
  predicate AgreeField(f: Field, g: Field)
    decreases g, 0
  {
    && f.rule == g.rule
    && g.arraySize <= f.arraySize
    && (f.kind.Submessage? <==> g.kind.Submessage?)
    && (g.kind.Submessage? ==> Agree(f.kind.fields, g.kind.fields) && Covers(f.kind.fields, g.kind.fields))
    && (!g.kind.Submessage? ==> f.kind == g.kind && f.dataSize == g.dataSize)
  }

  /** The fields of f's tag agree with it. */
  predicate AgreeTag(f: Field, gs: seq<Field>)
    decreases gs, 1
  {
    gs == [] || ((gs[0].tag == f.tag ==> AgreeField(f, gs[0])) && AgreeTag(f, gs[1..]))
  }

  /** Descriptors that agree on the tags they share, at every depth. */
  predicate Agree(fs: seq<Field>, gs: seq<Field>)
    decreases gs, 2
  {
    forall i :: 0 <= i < |fs| ==> AgreeTag(fs[i], gs)
  }

  lemma {:induction false} AgreeAt(f: Field, gs: seq<Field>, k: nat)
    requires AgreeTag(f, gs) && k < |gs| && gs[k].tag == f.tag
    ensures AgreeField(f, gs[k])
  {
    if k == 0 {
    } else {
      AgreeAt(f, gs[1..], k - 1);
    }
  }

  lemma {:induction false} AgreeTail(fs: seq<Field>, gs: seq<Field>)
    requires Agree(fs, gs) && gs != []
    ensures Agree(fs, gs[1..])
  {
    forall i | 0 <= i < |fs|
      ensures AgreeTag(fs[i], gs[1..])
    {
      assert AgreeTag(fs[i], gs);
    }
  }

  lemma {:induction false} AgreeReadsField(f: Field, g: Field)
    requires FieldOk(g) && AgreeField(f, g)
    ensures ReadsField(f, g)
    decreases g, 0
  {
    if g.kind.Submessage? {
      AgreeReads(f.kind.fields, g.kind.fields);
    }
  }

  lemma {:induction false} AgreeReads(fs: seq<Field>, gs: seq<Field>)
    requires FieldsOk(gs) && Agree(fs, gs)
    ensures Reads(fs, gs)
    decreases gs, 1
  {
    if gs == [] {
    } else {
      var r := IndexOf(fs, gs[0].tag);
      if r.Some? {
        assert AgreeTag(fs[r.value], gs);
        AgreeReadsField(fs[r.value], gs[0]);
      }
      AgreeTail(fs, gs);
      AgreeReads(fs, gs[1..]);
    }
  }

  lemma {:induction false} AgreeFieldSelf(f: Field)
    requires FieldOk(f)
    ensures AgreeField(f, f)
    decreases f, 0
  {
    if f.kind.Submessage? {
      AgreeSelf(f.kind.fields);
    }
  }

  lemma {:induction false} AgreeSelf(fs: seq<Field>)
    requires FieldsOk(fs)
    ensures Agree(fs, fs) && Covers(fs, fs)
    decreases fs, 2
  {
    forall i | 0 <= i < |fs|
      ensures AgreeTag(fs[i], fs)
    {
      AgreeTagSelf(fs, i, fs, 0);
    }
  }

  lemma {:induction false} AgreeTagSelf(fs: seq<Field>, i: nat, gs: seq<Field>, n: nat)
    requires FieldsOk(fs) && i < |fs| && n <= |fs| && gs == fs[n..]
    ensures AgreeTag(fs[i], gs)
    decreases fs, 1, |gs|
  {
    if gs == [] {
    } else {
      if gs[0].tag == fs[i].tag {
        IndexOfUnique(fs, i);
        IndexOfUnique(fs, n);
        assert gs[0] == fs[i];
        FieldsOkAt(fs, i);
        AgreeFieldSelf(fs[i]);
      }
      AgreeTagSelf(fs, i, gs[1..], n + 1);
    }
  }

  lemma ReadsFieldSelf(f: Field)
    requires FieldOk(f)
    ensures ReadsField(f, f)
  {
    AgreeFieldSelf(f);
    AgreeReadsField(f, f);
  }

  lemma ReadsSelf(fs: seq<Field>)
    requires FieldsOk(fs)
    ensures Reads(fs, fs) && Covers(fs, fs) && Agree(fs, fs)
  {
    AgreeSelf(fs);
    AgreeReads(fs, fs);
  }

  // ----- The message a reader sees

  /** A value of g as f holds it: strings end at their NUL, submessages are seen through f's sub-descriptor. */
  function ProjectValue(f: Field, g: Field, v: Value): Value
    requires AgreeField(f, g) && TypedValue(g, v)
    decreases g, 0
  {
    match g.kind
    case String => Blob(v.data[..StrLen(v.data)])
    case Submessage(gs) => Msg(Project(f.kind.fields, gs, v.slots))
    case _ => v
  }

  function ProjectItems(f: Field, g: Field, items: seq<Value>): (r: seq<Value>)
    requires AgreeField(f, g) && forall i :: 0 <= i < |items| ==> TypedValue(g, items[i])
    ensures |r| == |items|
    decreases g, 1, items
  {
    if items == [] then [] else [ProjectValue(f, g, items[0])] + ProjectItems(f, g, items[1..])
  }

  function ProjectSlot(f: Field, g: Field, s: Slot): Slot
    requires AgreeField(f, g) && TypedSlot(g, s)
    decreases g, 2
  {
    match g.rule
    case Required | Singular => One(ProjectValue(f, g, s.v))
    case Optional => if s.has then Maybe(true, ProjectValue(f, g, s.v)) else Maybe(false, DefaultValue(f))
    case Repeated => Many(ProjectItems(f, g, s.items))
  }

  /** The writer's content for one field of the reader, or its default if the writer does not have it. */
  function ProjectFrom(f: Field, gs: seq<Field>, n: seq<Slot>): Slot
    requires AgreeTag(f, gs) && TypedMsg(gs, n)
    decreases gs, 3
  {
    if gs == [] then DefaultSlot(f)
    else if gs[0].tag == f.tag then ProjectSlot(f, gs[0], n[0])
    else ProjectFrom(f, gs[1..], n[1..])
  }

  /** The writer's message as the reader sees it: unknown fields dropped, missing ones default, at every depth. */
  function Project(fs: seq<Field>, gs: seq<Field>, n: seq<Slot>): (m: seq<Slot>)
    requires Agree(fs, gs) && TypedMsg(gs, n)
    ensures |m| == |fs|
    decreases gs, 4
  {
    seq(|fs|, i requires 0 <= i < |fs| => assert AgreeTag(fs[i], gs); ProjectFrom(fs[i], gs, n))
  }

  lemma {:induction false} ProjectFromAt(f: Field, gs: seq<Field>, n: seq<Slot>)
    requires AgreeTag(f, gs) && TypedMsg(gs, n)
    ensures IndexOf(gs, f.tag).None? ==> ProjectFrom(f, gs, n) == DefaultSlot(f)
    ensures IndexOf(gs, f.tag).Some? ==>
              var k := IndexOf(gs, f.tag).value;
              AgreeField(f, gs[k]) && |n| == |gs| && TypedSlot(gs[k], n[k]) &&
              ProjectFrom(f, gs, n) == ProjectSlot(f, gs[k], n[k])
  {
    hide ProjectSlot, AgreeField, TypedSlot;
    if gs == [] {
    } else if gs[0].tag == f.tag {
      assert IndexOf(gs, f.tag) == Some(0);
    } else {
      ProjectFromAt(f, gs[1..], n[1..]);
    }
  }

  /** What the encoder leaves out is seen as the reader's default. */
  lemma {:induction false} DefaultProjects(f: Field, g: Field, v: Value)
    requires AgreeField(f, g) && TypedValue(g, v) && IsDefaultValue(g, v)
    ensures ProjectValue(f, g, v) == DefaultValue(f)
    decreases g, 0
  {
    if g.kind.Submessage? {
      var fs, gs := f.kind.fields, g.kind.fields;
      forall i | 0 <= i < |fs|
        ensures Project(fs, gs, v.slots)[i] == DefaultMsg(fs)[i]
      {
        assert AgreeTag(fs[i], gs);
        DefaultAt(fs, i);
        DefaultProjectsFrom(fs[i], gs, v.slots);
      }
    }
  }

  lemma {:induction false} DefaultProjectsFrom(f: Field, gs: seq<Field>, n: seq<Slot>)
    requires AgreeTag(f, gs) && TypedMsg(gs, n) && IsDefaultMsg(gs, n)
    ensures ProjectFrom(f, gs, n) == DefaultSlot(f)
    decreases gs, 1
  {
    if gs == [] {
    } else if gs[0].tag == f.tag {
      if gs[0].rule.Singular? {
        DefaultProjects(f, gs[0], n[0].v);
      }
    } else {
      DefaultProjectsFrom(f, gs[1..], n[1..]);
    }
  }

  /** Seen through its own descriptor a message is in canonical form. */
  lemma {:induction false} ProjectValueSelf(f: Field, v: Value)
    requires FieldOk(f) && AgreeField(f, f) && TypedValue(f, v)
    ensures ProjectValue(f, f, v) == CanonValue(f, v)
    decreases f, 0
  {
    if f.kind.Submessage? {
      ProjectSelf(f.kind.fields, v.slots);
    }
  }

  lemma {:induction false} ProjectItemsSelf(f: Field, items: seq<Value>)
    requires FieldOk(f) && AgreeField(f, f) && forall i :: 0 <= i < |items| ==> TypedValue(f, items[i])
    ensures ProjectItems(f, f, items) == CanonItems(f, items)
    decreases f, 1, items
  {
    if items == [] {
    } else {
      ProjectValueSelf(f, items[0]);
      ProjectItemsSelf(f, items[1..]);
    }
  }

  lemma {:induction false} ProjectSelf(fs: seq<Field>, m: seq<Slot>)
    requires FieldsOk(fs) && TypedMsg(fs, m) && Agree(fs, fs)
    ensures Project(fs, fs, m) == CanonMsg(fs, m)
    decreases fs, 3
  {
    forall i | 0 <= i < |fs|
      ensures Project(fs, fs, m)[i] == CanonMsg(fs, m)[i]
    {
      IndexOfUnique(fs, i);
      FieldsOkAt(fs, i);
      CanonAt(fs, m, i);
      assert AgreeTag(fs[i], fs);
      ProjectFromAt(fs[i], fs, m);
      ProjectSlotSelf(fs[i], m[i]);
    }
  }

  lemma {:induction false} ProjectSlotSelf(f: Field, s: Slot)
    requires FieldOk(f) && AgreeField(f, f) && TypedSlot(f, s)
    ensures ProjectSlot(f, f, s) == CanonSlot(f, s)
    decreases f, 2
  {
    if f.rule.Repeated? {
      ProjectItemsSelf(f, s.items);
    } else {
      ProjectValueSelf(f, s.v);
    }
  }

  // ----- Merging into defaults is projecting

  lemma {:induction false} MergeDefaultValue(f: Field, g: Field, v: Value)
    requires FieldOk(f) && FieldOk(g) && ReadsField(f, g) && AgreeField(f, g)
    requires TypedValue(g, v) && TypedValue(f, DefaultValue(f)) && EncodeValue(g, v).Some?
    ensures MergeValue(f, DefaultValue(f), g, v) == Some(ProjectValue(f, g, v))
    decreases g, 1
  {
    if g.kind.Submessage? {
      var fs := f.kind.fields;
      MergeDefaultMsg(fs, g.kind.fields, v.slots);
      assert InitialSlots(f, DefaultValue(f)) == DefaultMsg(fs);
    }
  }

  lemma {:induction false} MergeDefaultItems(f: Field, g: Field, done: seq<Value>, items: seq<Value>)
    requires FieldOk(f) && FieldOk(g) && ReadsField(f, g) && AgreeField(f, g) && f.rule.Repeated?
    requires TypedSlot(f, Many(done)) && TypedSlot(g, Many(items)) && |done| + |items| <= f.arraySize
    requires forall i :: 0 <= i < |items| ==> EncodeValue(g, items[i]).Some?
    ensures StoreAll(f, Many(done), g, items) == Some(Many(done + ProjectItems(f, g, items)))
    decreases g, 2, items
  {
    if items == [] {
      assert done + ProjectItems(f, g, items) == done;
    } else {
      DefaultTypedValue(f);
      MergeDefaultValue(f, g, items[0]);
      var v := ProjectValue(f, g, items[0]);
      hide MergeValue, ProjectValue, ReadsField, AgreeField, EncodeValue;
      assert Store(f, Many(done), g, items[0]) == Some(Many(done + [v]));
      MergeDefaultItems(f, g, done + [v], items[1..]);
      assert done + [v] + ProjectItems(f, g, items[1..]) == done + ProjectItems(f, g, items);
    }
  }

  lemma {:induction false} RecordsEncode(f: Field, items: seq<Value>, i: nat)
    requires FieldOk(f) && (forall i :: 0 <= i < |items| ==> TypedValue(f, items[i])) && i < |items|
    requires EncodeRecords(f, items).Some?
    ensures EncodeValue(f, items[i]).Some?
    decreases items
  {
    if i == 0 {
    } else {
      RecordsEncode(f, items[1..], i - 1);
    }
  }

  lemma MergeDefaultSlot(f: Field, g: Field, s: Slot)
    requires FieldOk(f) && FieldOk(g) && ReadsField(f, g) && AgreeField(f, g)
    requires TypedSlot(g, s) && TypedSlot(f, DefaultSlot(f)) && EncodeField(g, s).Some?
    ensures StoreAll(f, DefaultSlot(f), g, Emitted(g, s)) == Some(ProjectSlot(f, g, s))
    decreases g, 3
  {
    DefaultTypedValue(f);
    if f.rule.Repeated? {
      forall i | 0 <= i < |s.items|
        ensures EncodeValue(g, s.items[i]).Some?
      {
        if !IsNumeric(g.kind) {
          RecordsEncode(g, s.items, i);
        }
      }
      MergeDefaultItems(f, g, [], s.items);
      assert [] + ProjectItems(f, g, s.items) == ProjectItems(f, g, s.items);
    } else if Emitted(g, s) == [] {
      if f.rule.Singular? {
        DefaultProjects(f, g, s.v);
      }
    } else {
      MergeDefaultValue(f, g, s.v);
      assert [s.v][1..] == [];
    }
  }

  lemma {:induction false} EncodeFieldAt(gs: seq<Field>, n: seq<Slot>, k: nat)
    requires FieldsOk(gs) && TypedMsg(gs, n) && EncodeMsg(gs, n).Some? && k < |gs|
    ensures FieldOk(gs[k]) && TypedSlot(gs[k], n[k]) && EncodeField(gs[k], n[k]).Some?
    decreases k
  {
    if k == 0 {
    } else {
      EncodeFieldAt(gs[1..], n[1..], k - 1);
    }
  }

  lemma MergeDefaultMsg(fs: seq<Field>, gs: seq<Field>, n: seq<Slot>)
    requires FieldsOk(fs) && FieldsOk(gs) && TypedMsg(fs, DefaultMsg(fs)) && TypedMsg(gs, n)
    requires Reads(fs, gs) && Agree(fs, gs) && EncodeMsg(gs, n).Some?
    ensures MergeFields(fs, Progress(DefaultMsg(fs), {}), gs, n).Some?
    ensures MergeFields(fs, Progress(DefaultMsg(fs), {}), gs, n).value.m == Project(fs, gs, n)
    decreases gs, 4
  {
    forall i | 0 <= i < |fs|
      ensures MergedSlot(fs, DefaultMsg(fs), gs, n, i) == Some(Project(fs, gs, n)[i])
    {
      DefaultAt(fs, i);
      assert AgreeTag(fs[i], gs);
      ProjectFromAt(fs[i], gs, n);
      if IndexOf(gs, fs[i].tag).Some? {
        var k := IndexOf(gs, fs[i].tag).value;
        EncodeFieldAt(gs, n, k);
        FieldsOkAt(fs, i);
        AgreeReadsField(fs[i], gs[k]);
        TypedAt(fs, DefaultMsg(fs), i);
        MergeDefaultSlot(fs[i], gs[k], n[k]);
      }
    }
    MergePointwise(fs, Progress(DefaultMsg(fs), {}), gs, n);
  }

  // ----- Framing flags

  /** Decoding to the end of the input, or to a zero tag after the message, is merging. */
  lemma DecodeMerges(fs: seq<Field>, m: seq<Slot>, gs: seq<Field>, n: seq<Slot>, nt: bool)
    requires FieldsOk(fs) && TypedMsg(fs, m) && FieldsOk(gs) && Reads(fs, gs) && Covers(fs, gs) && TypedMsg(gs, n)
    requires EncodeMsg(gs, n).Some? && |EncodeMsg(gs, n).value| < TWO_32
    ensures DecodeMsg(fs, m, EncodeMsg(gs, n).value, nt) ==
              match MergeFields(fs, Progress(m, {}), gs, n) { case None => Fail case Some(q) => Ok(q.m, []) }
  {
    var p, b := Progress(m, {}), EncodeMsg(gs, n).value;
    FieldsMerge(fs, p, gs, n, [], nt);
    assert b + [] == b;
    MergeSees(fs, p, gs, n);
    var q := MergeFields(fs, p, gs, n);
    if q.Some? {
      DecodeNothing(fs, q.value, nt);
    }
  }

  lemma DecodeZeroTag(fs: seq<Field>, p: Progress, tail: seq<Byte>)
    requires FieldsOk(fs) && TypedMsg(fs, p.m)
    ensures DecodeFields(fs, p, [0] + tail, true) == Ok(p, tail)
  {
    hide DecodeVarint32;
    VarintRoundTrip(0, tail);
    assert VarintBytes(0) == [0];
  }

  lemma DecodeMergesToZero(fs: seq<Field>, m: seq<Slot>, gs: seq<Field>, n: seq<Slot>, tail: seq<Byte>)
    requires FieldsOk(fs) && TypedMsg(fs, m) && FieldsOk(gs) && Reads(fs, gs) && Covers(fs, gs) && TypedMsg(gs, n)
    requires EncodeMsg(gs, n).Some? && |EncodeMsg(gs, n).value| < TWO_32
    ensures DecodeMsg(fs, m, EncodeMsg(gs, n).value + [0] + tail, true) ==
              match MergeFields(fs, Progress(m, {}), gs, n) { case None => Fail case Some(q) => Ok(q.m, tail) }
  {
    var p, b := Progress(m, {}), EncodeMsg(gs, n).value;
    FieldsMerge(fs, p, gs, n, [0] + tail, true);
    MergeSees(fs, p, gs, n);
    hide EncodeMsg, MergeFields, DecodeFields, FieldsOk, TypedMsg, Reads, Covers;
    assert b + ([0] + tail) == b + [0] + tail;
    var q := MergeFields(fs, p, gs, n);
    if q.Some? {
      DecodeZeroTag(fs, q.value, tail);
    }
  }

  /**
   * Compatibility: a reader whose fields agree with the writer's on the tags they share, and whose
   * required fields the writer has, gets exactly the projection of the message, with any framing. Both
   * hold at every depth: sub-descriptors may lack and add fields too.
   */
  lemma Compatibility(fs: seq<Field>, gs: seq<Field>, n: seq<Slot>, tail: seq<Byte>, delimited: bool, nt: bool)
    requires FieldsOk(fs) && FieldsOk(gs) && Agree(fs, gs) && Covers(fs, gs) && TypedMsg(gs, n)
    requires EncodeMsg(gs, n).Some? && |EncodeMsg(gs, n).value| < TWO_32
    requires delimited || nt || tail == []
    ensures TypedMsg(fs, DefaultMsg(fs))
    ensures DecodeEx(fs, DefaultMsg(fs), EncodeEx(gs, n, delimited, nt).value + tail, delimited, nt) ==
              Ok(Project(fs, gs, n), tail)
  {
    DefaultTyped(fs);
    AgreeReads(fs, gs);
    MergeDefaultMsg(fs, gs, n);
    hide EncodeMsg, DefaultMsg, MergeFields, DecodeMsg, Project, DecodeDelimited, Delimited, FieldsOk, TypedMsg,
         Reads, Covers, Agree;
    var b := EncodeMsg(gs, n).value;
    if delimited {
      DelimitedRoundTrip(b, tail);
      DecodeMerges(fs, DefaultMsg(fs), gs, n, nt);
    } else if nt {
      DecodeMergesToZero(fs, DefaultMsg(fs), gs, n, tail);
    } else {
      assert b + [] == b;
      DecodeMerges(fs, DefaultMsg(fs), gs, n, nt);
    }
  }

  /** Round trip: decoding what was encoded gives the message back, in canonical form, with any framing. */
  lemma RoundTrip(fs: seq<Field>, m: seq<Slot>, tail: seq<Byte>, delimited: bool, nt: bool)
    requires FieldsOk(fs) && TypedMsg(fs, m)
    requires EncodeMsg(fs, m).Some? && |EncodeMsg(fs, m).value| < TWO_32
    requires delimited || nt || tail == []
    ensures TypedMsg(fs, DefaultMsg(fs))
    ensures DecodeEx(fs, DefaultMsg(fs), EncodeEx(fs, m, delimited, nt).value + tail, delimited, nt) ==
              Ok(CanonMsg(fs, m), tail)
  {
    ReadsSelf(fs);
    Compatibility(fs, fs, m, tail, delimited, nt);
    ProjectSelf(fs, m);
  }
}
