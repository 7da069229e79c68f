/** Which messages can be encoded, and which of those come back exactly as they were. */
module RoundTrips {
  import opened Bytes
  import opened Message
  import opened Wire
  import opened CodecTheorems

  // ----- What the encoder accepts

  /** A bytes field leaves room for its size, a string for its terminator, and so on down the tree. */
  predicate CanEncodeValue(f: Field, v: Value)
    requires TypedValue(f, v)
    decreases f, 0
  {
    match f.kind
    case Bytes => |v.data| + 2 <= f.dataSize
    case String => StrLen(v.data) < f.dataSize
    case Submessage(fs) => CanEncodeMsg(fs, v.slots)
    case _ => true
  }

  /** Only what is put on the wire matters; an array must keep to its capacity. */
  predicate CanEncodeSlot(f: Field, s: Slot)
    requires TypedSlot(f, s)
    decreases f, 1
  {
    match f.rule
    case Required => CanEncodeValue(f, s.v)
    case Singular => IsDefaultValue(f, s.v) || CanEncodeValue(f, s.v)
    case Optional => !s.has || CanEncodeValue(f, s.v)
    case Repeated => |s.items| <= f.arraySize && forall i :: 0 <= i < |s.items| ==> CanEncodeValue(f, s.items[i])
  }

  predicate CanEncodeMsg(fs: seq<Field>, m: seq<Slot>)
    requires TypedMsg(fs, m)
    decreases fs, 2
  {
    fs == [] || (CanEncodeSlot(fs[0], m[0]) && CanEncodeMsg(fs[1..], m[1..]))
  }

  lemma {:induction false} ValueEncodes(f: Field, v: Value)
    requires FieldOk(f) && TypedValue(f, v)
    ensures EncodeRecord(f, v).Some? <==> CanEncodeValue(f, v)
    decreases f, 0
  {
    if f.kind.Submessage? {
      MsgEncodes(f.kind.fields, v.slots);
    } else {
      hide NumBytes, Delimited;
    }
  }

  lemma {:induction false} ItemsEncode(f: Field, items: seq<Value>)
    requires FieldOk(f) && forall i :: 0 <= i < |items| ==> TypedValue(f, items[i])
    ensures EncodeRecords(f, items).Some? <==> forall i :: 0 <= i < |items| ==> CanEncodeValue(f, items[i])
    decreases f, 1, items
  {
    if items == [] {
    } else {
      ValueEncodes(f, items[0]);
      ItemsEncode(f, items[1..]);
      hide EncodeRecord, CanEncodeValue;
      if forall i :: 0 <= i < |items[1..]| ==> CanEncodeValue(f, items[1..][i]) {
        assert forall i :: 0 < i < |items| ==> items[i] == items[1..][i - 1];
      } else {
        var i :| 0 <= i < |items[1..]| && !CanEncodeValue(f, items[1..][i]);
        assert !CanEncodeValue(f, items[i + 1]);
      }
    }
  }

  lemma {:induction false} SlotEncodes(f: Field, s: Slot)
    requires FieldOk(f) && TypedSlot(f, s)
    ensures EncodeField(f, s).Some? <==> CanEncodeSlot(f, s)
    decreases f, 2
  {
    if f.rule.Repeated? {
      ItemsEncode(f, s.items);
    } else {
      ValueEncodes(f, s.v);
    }
    hide EncodeRecord, EncodeRecords, PackedBytes;
  }

  /** The encoder reports an error exactly for the messages that do not fit their descriptor. */
  lemma {:induction false} MsgEncodes(fs: seq<Field>, m: seq<Slot>)
    requires FieldsOk(fs) && TypedMsg(fs, m)
    ensures EncodeMsg(fs, m).Some? <==> CanEncodeMsg(fs, m)
    decreases fs, 3
  {
    if fs == [] {
    } else {
      SlotEncodes(fs[0], m[0]);
      MsgEncodes(fs[1..], m[1..]);
      hide EncodeField, CanEncodeSlot;
    }
  }

  // ----- What comes back unchanged

  /** Strings hold no NUL and absent optional fields hold their default, at every depth. */
  predicate CleanValue(f: Field, v: Value)
    requires TypedValue(f, v)
    decreases f, 0
  {
    match f.kind
    case String => StrLen(v.data) == |v.data|
    case Submessage(fs) => CleanMsg(fs, v.slots)
    case _ => true
  }

  predicate CleanSlot(f: Field, s: Slot)
    requires TypedSlot(f, s)
    decreases f, 1
  {
    match f.rule
    case Required | Singular => CleanValue(f, s.v)
    case Optional => if s.has then CleanValue(f, s.v) else s.v == DefaultValue(f)
    case Repeated => forall i :: 0 <= i < |s.items| ==> CleanValue(f, s.items[i])
  }

  predicate CleanMsg(fs: seq<Field>, m: seq<Slot>)
    requires TypedMsg(fs, m)
    decreases fs, 2
  {
    fs == [] || (CleanSlot(fs[0], m[0]) && CleanMsg(fs[1..], m[1..]))
  }

  lemma {:induction false} ValueClean(f: Field, v: Value)
    requires TypedValue(f, v)
    ensures CanonValue(f, v) == v <==> CleanValue(f, v)
    decreases f, 0
  {
    if f.kind.Submessage? {
      MsgClean(f.kind.fields, v.slots);
    } else if f.kind.String? {
      assert v.data[..|v.data|] == v.data;
    }
  }

  lemma {:induction false} ItemsClean(f: Field, items: seq<Value>)
    requires forall i :: 0 <= i < |items| ==> TypedValue(f, items[i])
    ensures CanonItems(f, items) == items <==> forall i :: 0 <= i < |items| ==> CleanValue(f, items[i])
    decreases f, 1, items
  {
    if items == [] {
    } else {
      var rest := items[1..];
      ValueClean(f, items[0]);
      ItemsClean(f, rest);
      hide CanonValue, CleanValue;
      assert CanonItems(f, items) == items <==> CanonValue(f, items[0]) == items[0] && CanonItems(f, rest) == rest by {
        assert CanonItems(f, items)[1..] == CanonItems(f, rest) && CanonItems(f, items)[0] == CanonValue(f, items[0]);
        assert items == [items[0]] + rest;
      }
      if forall i :: 0 <= i < |rest| ==> CleanValue(f, rest[i]) {
        assert forall i :: 0 < i < |items| ==> items[i] == rest[i - 1];
      } else {
        var i :| 0 <= i < |rest| && !CleanValue(f, rest[i]);
        assert !CleanValue(f, items[i + 1]);
      }
    }
  }

  lemma {:induction false} SlotClean(f: Field, s: Slot)
    requires TypedSlot(f, s)
    ensures CanonSlot(f, s) == s <==> CleanSlot(f, s)
    decreases f, 2
  {
    if f.rule.Repeated? {
      ItemsClean(f, s.items);
    } else {
      ValueClean(f, s.v);
    }
  }

  lemma {:induction false} MsgClean(fs: seq<Field>, m: seq<Slot>)
    requires TypedMsg(fs, m)
    ensures CanonMsg(fs, m) == m <==> CleanMsg(fs, m)
    decreases fs, 3
  {
    if fs == [] {
    } else {
      SlotClean(fs[0], m[0]);
      MsgClean(fs[1..], m[1..]);
      hide CanonSlot, CleanSlot, TypedSlot;
      assert CanonMsg(fs, m)[1..] == CanonMsg(fs[1..], m[1..]) && CanonMsg(fs, m)[0] == CanonSlot(fs[0], m[0]);
      assert m == [m[0]] + m[1..];
    }
  }

  /**
   * Every message that fits its descriptor survives encoding and decoding, with any framing and
   * whatever follows it, and comes back unchanged exactly if it is clean.
   */
  lemma ExactRoundTrip(fs: seq<Field>, m: seq<Slot>, tail: seq<Byte>, delimited: bool, nt: bool)
    requires FieldsOk(fs) && TypedMsg(fs, m) && CanEncodeMsg(fs, m)
    requires EncodeMsg(fs, m).Some? ==> |EncodeMsg(fs, m).value| < TWO_32
    requires delimited || nt || tail == []
    ensures EncodeEx(fs, m, delimited, nt).Some? && TypedMsg(fs, DefaultMsg(fs))
    ensures var r := DecodeEx(fs, DefaultMsg(fs), EncodeEx(fs, m, delimited, nt).value + tail, delimited, nt);
            r.Ok? && r.rest == tail && (r.value == m <==> CleanMsg(fs, m))
  {
    MsgEncodes(fs, m);
    MsgClean(fs, m);
    RoundTrip(fs, m, tail, delimited, nt);
  }
}
