/** Records on the wire, apart from any descriptor, and what they have to do with required fields. */
module RequiredFields {
  import opened Bytes
  import opened Varint
  import opened Message
  import opened Wire
  import opened Descriptors
  import opened SchemaEvolution

  /** The tags of the records that s consists of, up to the end, a zero tag or the first malformed record. */
  function WireTags(s: seq<Byte>): set<U32>
    decreases |s|
  {
    match DecodeVarint32(s)
    case Fail => {}
    case Ok(key, rest) =>
      if key / 8 == 0 then {}
      else
        match SkipField(key % 8, rest)
        case Fail => {}
        case Ok(_, rest') => {key / 8} + WireTags(rest')
  }

  lemma NumSkips(k: Kind, dataSize: nat, s: seq<Byte>)
    requires IsNumeric(k) && DecodeNum(k, dataSize, s).Ok?
    ensures SkipField(WireType(k), s) == Ok((), DecodeNum(k, dataSize, s).rest)
  {
  }

  lemma ValueSkips(f: Field, prior: Value, wt: nat, s: seq<Byte>)
    requires FieldOk(f) && TypedValue(f, prior) && wt < 8 && DecodeValue(f, prior, wt, s).Ok?
    ensures SkipField(wt, s) == Ok((), DecodeValue(f, prior, wt, s).rest)
  {
    hide DecodeNum, SkipVarint, DecodeDelimited;
    if IsNumeric(f.kind) {
      NumSkips(f.kind, f.dataSize, s);
    }
  }

  /** Reading a field stops where skipping it would: the wire type alone says how long a record is. */
  lemma FieldSkips(f: Field, slot: Slot, wt: nat, s: seq<Byte>)
    requires FieldOk(f) && TypedSlot(f, slot) && wt < 8 && DecodeField(f, slot, wt, s).Ok?
    ensures SkipField(wt, s) == Ok((), DecodeField(f, slot, wt, s).rest)
  {
    DefaultTypedValue(f);
    var prior := if f.rule.Repeated? then DefaultValue(f) else slot.v;
    if f.rule.Repeated? && wt == WT_STRING && IsNumeric(f.kind) {
      assert DecodeDelimited(s).Ok?;
    } else {
      ValueSkips(f, prior, wt, s);
    }
  }

  lemma TakeSkips(fs: seq<Field>, p: Progress, tag: U32, wt: nat, s: seq<Byte>)
    requires FieldsOk(fs) && TypedMsg(fs, p.m) && wt < 8 && TakeField(fs, p, tag, wt, s).Ok?
    ensures SkipField(wt, s).Ok? && SkipField(wt, s).rest == TakeField(fs, p, tag, wt, s).rest
    ensures forall i :: i in TakeField(fs, p, tag, wt, s).value.seen <==>
              i in p.seen || (0 <= i < |fs| && fs[i].rule.Required? && IndexOf(fs, tag) == Some(i))
  {
    hide SkipField, DecodeField;
    if IndexOf(fs, tag).Some? {
      var i := IndexOf(fs, tag).value;
      FieldsOkAt(fs, i);
      TypedAt(fs, p.m, i);
      FieldSkips(fs[i], p.m[i], wt, s);
    }
  }

  lemma NoTags()
    ensures DecodeVarint32([]) == Fail
  {
  }

  /** After the loop, the required fields met are those whose tag occurs on the wire. */
  lemma {:induction false} SeenIsTags(fs: seq<Field>, p: Progress, s: seq<Byte>, nt: bool)
    requires FieldsOk(fs) && TypedMsg(fs, p.m) && DecodeFields(fs, p, s, nt).Ok?
    ensures forall i :: i in DecodeFields(fs, p, s, nt).value.seen <==>
              i in p.seen || (0 <= i < |fs| && fs[i].rule.Required? && fs[i].tag in WireTags(s))
    decreases |s|
  {
    hide SkipField, TakeField, FieldsOk, TypedMsg, DecodeVarint32, IndexOf;
    if s == [] {
      NoTags();
    } else {
      var key, rest := DecodeVarint32(s).value, DecodeVarint32(s).rest;
      if key / 8 != 0 {
        TakeSkips(fs, p, key / 8, key % 8, rest);
        var r := TakeField(fs, p, key / 8, key % 8, rest);
        SeenIsTags(fs, r.value, r.rest, nt);
        forall i | 0 <= i < |fs|
          ensures IndexOf(fs, key / 8) == Some(i) <==> fs[i].tag == key / 8
        {
          IndexOfUnique(fs, i);
        }
      }
    }
  }

  /**
   * With at most 64 required fields, a message whose fields all parse is accepted exactly when every
   * required tag occurs on the wire.
   */
  lemma RequiredTagsDecide(fs: seq<Field>, m: seq<Slot>, s: seq<Byte>, nt: bool)
    requires FieldsOk(fs) && TypedMsg(fs, m) && RequiredBefore(fs, |fs|) <= MAX_REQUIRED
    ensures DecodeMsg(fs, m, s, nt).Ok? <==>
              && DecodeFields(fs, Progress(m, {}), s, nt).Ok?
              && forall i :: 0 <= i < |fs| && fs[i].rule.Required? ==> fs[i].tag in WireTags(s)
  {
    if DecodeFields(fs, Progress(m, {}), s, nt).Ok? {
      SeenIsTags(fs, Progress(m, {}), s, nt);
      forall i | 0 <= i < |fs| && fs[i].rule.Required?
        ensures RequiredBefore(fs, i) < MAX_REQUIRED
      {
        RankMonotone(fs, i, |fs|);
      }
    }
  }
}
