/**
 * Message descriptors and message values: which values a descriptor allows, which of them can be
 * encoded, the default value, and what merging one message into another gives.
 */
module Message {
  import opened Bytes

  datatype Rule = Required | Singular | Optional | Repeated

  datatype Kind =
    | Bool
    | Varint
    | UVarint
    | SVarint
    | Fixed32
    | Fixed64
    | Bytes
    | String
    | Submessage(fields: seq<Field>)

  /** One field of a struct: dataSize is sizeof one item, arraySize the capacity of a repeated field. */
  datatype Field = Field(tag: U32, rule: Rule, kind: Kind, dataSize: nat, arraySize: nat)

  /**
   * One item. A number stands for a bool (0 or 1), an integer or the bit pattern of a fixed-width
   * field, floats included. A blob is the content of a bytes field, or the characters in the array
   * of a string field, a terminator following them.
   */
  datatype Value = Num(n: int) | Blob(data: seq<Byte>) | Msg(slots: seq<Slot>)

  /** A field's storage: one item, one item with its has flag, or the counted items of an array. */
  datatype Slot = One(v: Value) | Maybe(has: bool, v: Value) | Many(items: seq<Value>)

  // ----- Descriptors

  /** Types up to PB_LTYPE_LAST_PACKABLE: those that hold a number and are packed in arrays. */
  predicate IsNumeric(k: Kind) { !k.Bytes? && !k.String? && !k.Submessage? }

  predicate SizeFits(k: Kind, dataSize: nat) {
    match k
    case Bool => dataSize == 1
    case Varint | UVarint | SVarint => dataSize == 1 || dataSize == 2 || dataSize == 4 || dataSize == 8
    case Fixed32 => dataSize == 4
    case Fixed64 => dataSize == 8
    case Bytes => 2 <= dataSize < 0x1_0000
    case String => dataSize < 0x1_0000
    case Submessage(_) => true
  }

  predicate FieldOk(f: Field)
    decreases f, 0
  {
    && 0 < f.tag < 0x1_0000
    && SizeFits(f.kind, f.dataSize)
    && f.arraySize < 0x1_0000
    && (f.kind.Submessage? ==> FieldsOk(f.kind.fields))
  }

  predicate HasTag(fs: seq<Field>, tag: U32) {
    exists i :: 0 <= i < |fs| && fs[i].tag == tag
  }

  /** Every field is well formed and tags are distinct. */
  predicate FieldsOk(fs: seq<Field>)
    decreases fs, 1
  {
    fs == [] || (FieldOk(fs[0]) && !HasTag(fs[1..], fs[0].tag) && FieldsOk(fs[1..]))
  }

  /** Fields of every type, repetition and usual width are covered, with 16-bit tags, sizes and capacities. */
  lemma EveryTypeCovered(tag: U32, rule: Rule, n: nat, sub: seq<Field>)
    requires 0 < tag < 0x1_0000 && n < 0x1_0000 && FieldsOk(sub)
    ensures FieldOk(Field(tag, rule, Bool, 1, n)) && FieldOk(Field(tag, rule, Submessage(sub), n, n))
    ensures FieldOk(Field(tag, rule, Fixed32, 4, n)) && FieldOk(Field(tag, rule, Fixed64, 8, n))
    ensures FieldOk(Field(tag, rule, String, n, n)) && (n >= 2 ==> FieldOk(Field(tag, rule, Bytes, n, n)))
    ensures n in {1, 2, 4, 8} ==>
              FieldOk(Field(tag, rule, Varint, n, n)) && FieldOk(Field(tag, rule, UVarint, n, n))
              && FieldOk(Field(tag, rule, SVarint, n, n))
  {
  }

  /** The field with this tag, found by linear search. */
  function IndexOf(fs: seq<Field>, tag: U32): (r: Option<nat>)
    ensures r.Some? <==> HasTag(fs, tag)
    ensures r.Some? ==> r.value < |fs| && fs[r.value].tag == tag
  {
    if fs == [] then None
    else if fs[0].tag == tag then Some(0)
    else
      var r := IndexOf(fs[1..], tag);
      if r.Some? then
        assert fs[r.value + 1].tag == tag;
        Some(r.value + 1)
      else
        assert forall i :: 0 <= i < |fs| && fs[i].tag == tag ==> fs[1..][i - 1].tag == tag;
        None
  }

  // ----- Values

  function MinOf(k: Kind, dataSize: nat): int {
    match k
    case Varint | SVarint =>
      if dataSize == 1 then -0x80 else if dataSize == 2 then -0x8000
      else if dataSize == 4 then -0x8000_0000 else -0x8000_0000_0000_0000
    case _ => 0
  }

  function LimitOf(k: Kind, dataSize: nat): int {
    match k
    case Bool => 2
    case Varint | SVarint =>
      if dataSize == 1 then 0x80 else if dataSize == 2 then 0x8000
      else if dataSize == 4 then 0x8000_0000 else 0x8000_0000_0000_0000
    case UVarint =>
      if dataSize == 1 then 0x100 else if dataSize == 2 then 0x1_0000 else if dataSize == 4 then TWO_32 else TWO_64
    case Fixed32 => TWO_32
    case _ => TWO_64
  }

  predicate InRange(k: Kind, dataSize: nat, n: int) { MinOf(k, dataSize) <= n < LimitOf(k, dataSize) }

  /** The value has the shape the descriptor gives its storage. */
  predicate TypedValue(f: Field, v: Value)
    decreases f, 0
  {
    match f.kind
    case Bytes | String => v.Blob?
    case Submessage(fs) => v.Msg? && TypedMsg(fs, v.slots)
    case _ => v.Num? && InRange(f.kind, f.dataSize, v.n)
  }

  predicate TypedSlot(f: Field, s: Slot)
    decreases f, 1
  {
    match f.rule
    case Required | Singular => s.One? && TypedValue(f, s.v)
    case Optional => s.Maybe? && TypedValue(f, s.v)
    case Repeated => s.Many? && forall i :: 0 <= i < |s.items| ==> TypedValue(f, s.items[i])
  }

  predicate TypedMsg(fs: seq<Field>, m: seq<Slot>)
    decreases fs, 2
  {
    |m| == |fs| && (fs == [] || (TypedSlot(fs[0], m[0]) && TypedMsg(fs[1..], m[1..])))
  }

  lemma {:induction false} TypedAt(fs: seq<Field>, m: seq<Slot>, i: nat)
    requires TypedMsg(fs, m) && i < |fs|
    ensures TypedSlot(fs[i], m[i])
  {
    if i == 0 {
    } else {
      TypedAt(fs[1..], m[1..], i - 1);
    }
  }

  lemma {:induction false} TypedUpdate(fs: seq<Field>, m: seq<Slot>, i: nat, s: Slot)
    requires TypedMsg(fs, m) && i < |fs| && TypedSlot(fs[i], s)
    ensures TypedMsg(fs, m[i := s])
  {
    if i > 0 {
      TypedUpdate(fs[1..], m[1..], i - 1, s);
      assert m[i := s][1..] == m[1..][i - 1 := s];
    } else {
      assert m[i := s][1..] == m[1..];
    }
  }

  lemma {:induction false} FieldsOkAt(fs: seq<Field>, i: nat)
    requires FieldsOk(fs) && i < |fs|
    ensures FieldOk(fs[i])
  {
    if i == 0 {
    } else {
      FieldsOkAt(fs[1..], i - 1);
    }
  }

  /** Length of a string: up to the first NUL of its array. */
  function StrLen(chars: seq<Byte>): (n: nat)
    ensures n <= |chars|
  {
    if chars == [] || chars[0] == 0 then 0 else 1 + StrLen(chars[1..])
  }

  // ----- Defaults

  function DefaultValue(f: Field): Value
    decreases f, 0
  {
    match f.kind
    case Bytes | String => Blob([])
    case Submessage(fs) => Msg(DefaultMsg(fs))
    case _ => Num(0)
  }

  function DefaultSlot(f: Field): Slot
    decreases f, 1
  {
    match f.rule
    case Required | Singular => One(DefaultValue(f))
    case Optional => Maybe(false, DefaultValue(f))
    case Repeated => Many([])
  }

  /** pb_message_set_to_defaults: numbers zero, strings and arrays empty, optional fields absent, recursively. */
  function DefaultMsg(fs: seq<Field>): (m: seq<Slot>)
    ensures |m| == |fs|
    decreases fs, 2
  {
    if fs == [] then [] else [DefaultSlot(fs[0])] + DefaultMsg(fs[1..])
  }

  lemma {:induction false} DefaultAt(fs: seq<Field>, i: nat)
    requires i < |fs|
    ensures DefaultMsg(fs)[i] == DefaultSlot(fs[i])
  {
    if i == 0 {
    } else {
      DefaultAt(fs[1..], i - 1);
    }
  }

  lemma {:induction false} DefaultTypedValue(f: Field)
    ensures TypedValue(f, DefaultValue(f))
    decreases f, 0
  {
    if f.kind.Submessage? {
      DefaultTyped(f.kind.fields);
    }
  }

  lemma {:induction false} DefaultTyped(fs: seq<Field>)
    ensures TypedMsg(fs, DefaultMsg(fs))
    decreases fs, 1
  {
    if fs == [] {
    } else {
      DefaultTypedValue(fs[0]);
      DefaultTyped(fs[1..]);
      assert DefaultMsg(fs)[1..] == DefaultMsg(fs[1..]);
    }
  }

  /** pb_check_proto3_default_value: a singular field with this content is left out of the encoding. */
  predicate IsDefaultValue(f: Field, v: Value)
    requires TypedValue(f, v)
    decreases f, 0
  {
    match f.kind
    case Bytes => v.data == []
    case String => StrLen(v.data) == 0
    case Submessage(fs) => IsDefaultMsg(fs, v.slots)
    case _ => v.n == 0
  }

  predicate IsDefaultSlot(f: Field, s: Slot)
    requires TypedSlot(f, s)
    decreases f, 1
  {
    match f.rule
    case Required => false
    case Singular => IsDefaultValue(f, s.v)
    case Optional => !s.has
    case Repeated => s.items == []
  }

  predicate IsDefaultMsg(fs: seq<Field>, m: seq<Slot>)
    requires TypedMsg(fs, m)
    decreases fs, 2
  {
    fs == [] || (IsDefaultSlot(fs[0], m[0]) && IsDefaultMsg(fs[1..], m[1..]))
  }
}
