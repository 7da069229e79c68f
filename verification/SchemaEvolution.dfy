/**
 * The central fact about the codec: decoding what the encoder wrote, under a compatible descriptor
 * and into any prior content, is merging. Round trips, skipping of unknown fields and last-one-wins
 * are instances.
 */
module SchemaEvolution {
  import opened Bytes
  import opened Varint
  import opened Message
  import opened Wire
  import opened Merge

  // ----- Single items

  function Pow256(k: nat): nat {
    if k == 0 then 1 else 0x100 * Pow256(k - 1)
  }

  lemma {:induction false} LittleEndianRoundTrip(n: nat, k: nat)
    requires n < Pow256(k)
    ensures FromLittleEndian(LittleEndian(n, k)) == n
  {
    if k == 0 {
    } else {
      LittleEndianRoundTrip(n / 0x100, k - 1);
      assert LittleEndian(n, k)[1..] == LittleEndian(n / 0x100, k - 1);
    }
  }

  lemma FixedRoundTrip(n: nat, tail: seq<Byte>)
    ensures n < TWO_32 ==> FromLittleEndian((LittleEndian(n, 4) + tail)[..4]) == n
    ensures n < TWO_64 ==> FromLittleEndian((LittleEndian(n, 8) + tail)[..8]) == n
    ensures (LittleEndian(n, 4) + tail)[4..] == tail && (LittleEndian(n, 8) + tail)[8..] == tail
  {
    assert Pow256(2) == 0x1_0000 && Pow256(4) == TWO_32;
    assert Pow256(6) == 0x1_0000_0000_0000 && Pow256(8) == TWO_64;
    assert (LittleEndian(n, 4) + tail)[..4] == LittleEndian(n, 4);
    assert (LittleEndian(n, 8) + tail)[..8] == LittleEndian(n, 8);
    if n < TWO_32 {
      LittleEndianRoundTrip(n, 4);
    }
    if n < TWO_64 {
      LittleEndianRoundTrip(n, 8);
    }
  }

  /** A number of any type comes back from its bytes, which end exactly where the rest begins. */
  lemma NumRoundTrip(k: Kind, dataSize: nat, n: int, tail: seq<Byte>)
    requires IsNumeric(k) && SizeFits(k, dataSize) && InRange(k, dataSize, n)
    ensures DecodeNum(k, dataSize, NumBytes(k, dataSize, n) + tail) == Ok(n, tail)
  {
    hide DecodeVarint, DecodeVarint32, VarintBytes, LittleEndian, FromLittleEndian, ZigZag, UnZigZag;
    if k.Fixed32? || k.Fixed64? {
      FixedRoundTrip(n, tail);
    } else if k.SVarint? {
      ZigZagBijection(n, 0);
      VarintRoundTrip(ZigZag(n), tail);
    } else if k.Varint? {
      VarintRoundTrip(AsU64(n), tail);
    } else {
      VarintRoundTrip(n, tail);
    }
  }

  lemma DelimitedRoundTrip(s: seq<Byte>, tail: seq<Byte>)
    requires |s| < TWO_32
    ensures DecodeDelimited(Delimited(s) + tail) == Ok(s, tail)
  {
    hide DecodeVarint32, VarintBytes;
    VarintRoundTrip(|s|, s + tail);
    assert Delimited(s) + tail == VarintBytes(|s|) + (s + tail);
    assert (s + tail)[..|s|] == s && (s + tail)[|s|..] == tail;
  }

  lemma TagRoundTrip(tag: U32, wt: nat, tail: seq<Byte>)
    requires tag < 0x1_0000 && wt < 8
    ensures DecodeVarint32(TagBytes(tag, wt) + tail) == Ok(tag * 8 + wt, tail)
  {
    VarintRoundTrip(tag * 8 + wt, tail);
  }

  lemma SkipsDelimited(s: seq<Byte>, tail: seq<Byte>)
    requires |Delimited(s)| < TWO_32
    ensures SkipField(WT_STRING, Delimited(s) + tail) == Ok((), tail)
  {
    DelimitedRoundTrip(s, tail);
  }

  /** Skipping an unknown field consumes exactly what the encoder wrote for it. */
  lemma SkipsPayload(g: Field, v: Value, tail: seq<Byte>)
    requires FieldOk(g) && TypedValue(g, v)
    requires EncodeValue(g, v).Some? && |EncodeValue(g, v).value| < TWO_32
    ensures SkipField(WireType(g.kind), EncodeValue(g, v).value + tail) == Ok((), tail)
  {
    var b := EncodeValue(g, v).value;
    hide EncodeMsg, VarintBytes, VarintLength, DecodeDelimited, LittleEndian, Delimited;
    assert (b + tail)[|b|..] == tail;
    match g.kind
    case Bytes => SkipsDelimited(v.data, tail);
    case String => SkipsDelimited(v.data[..StrLen(v.data)], tail);
    case Submessage(fs) => SkipsDelimited(EncodeMsg(fs, v.slots).value, tail);
    case Fixed32 =>
    case Fixed64 =>
    case SVarint => VarintBytesDecode(ZigZag(v.n), tail);
    case Varint => VarintBytesDecode(AsU64(v.n), tail);
    case _ => VarintBytesDecode(v.n, tail);
  }

  // ----- Items, records, arrays

  lemma DecodeNothing(fs: seq<Field>, p: Progress, nt: bool)
    requires FieldsOk(fs) && TypedMsg(fs, p.m)
    ensures DecodeFields(fs, p, [], nt) == Ok(p, [])
  {
  }

  lemma {:induction false} IndexOfUnique(fs: seq<Field>, i: nat)
    requires FieldsOk(fs) && i < |fs|
    ensures IndexOf(fs, fs[i].tag) == Some(i)
  {
    if i == 0 {
    } else {
      assert fs[1..][i - 1].tag == fs[i].tag;
      IndexOfUnique(fs[1..], i - 1);
    }
  }

  lemma {:induction false} MergeSeesField(fs: seq<Field>, p: Progress, gs: seq<Field>, n: seq<Slot>, i: nat)
    requires FieldsOk(fs) && TypedMsg(fs, p.m) && FieldsOk(gs) && Reads(fs, gs) && TypedMsg(gs, n)
    requires i < |fs| && fs[i].rule.Required? && (i in p.seen || HasTag(gs, fs[i].tag))
    ensures MergeFields(fs, p, gs, n).Some? ==> i in MergeFields(fs, p, gs, n).value.seen
    decreases gs
  {
    hide StoreAll;
    if gs == [] {
    } else {
      var q := Stored(fs, p, gs[0], Emitted(gs[0], n[0]));
      if q.Some? {
        if gs[0].tag == fs[i].tag {
          IndexOfUnique(fs, i);
          assert ReadsField(fs[i], gs[0]) && Emitted(gs[0], n[0]) != [];
        } else if HasTag(gs, fs[i].tag) {
          var k :| 0 <= k < |gs| && gs[k].tag == fs[i].tag;
          assert gs[1..][k - 1].tag == fs[i].tag;
        }
        MergeSeesField(fs, q.value, gs[1..], n[1..], i);
      }
    }
  }

  /** Merging a message whose writer has the reader's required fields meets all of them. */
  lemma MergeSees(fs: seq<Field>, p: Progress, gs: seq<Field>, n: seq<Slot>)
    requires FieldsOk(fs) && TypedMsg(fs, p.m) && FieldsOk(gs) && Reads(fs, gs) && TypedMsg(gs, n) && Covers(fs, gs)
    ensures MergeFields(fs, p, gs, n).Some? ==> AllSeen(fs, MergeFields(fs, p, gs, n).value.seen)
  {
    var r := MergeFields(fs, p, gs, n);
    if r.Some? {
      forall i | 0 <= i < |fs| && fs[i].rule.Required?
        ensures i in r.value.seen
      {
        MergeSeesField(fs, p, gs, n, i);
      }
    }
  }

  /** Reading one item is merging it. */
  lemma {:induction false} ValueMerges(f: Field, prior: Value, g: Field, v: Value, tail: seq<Byte>)
    requires FieldOk(f) && FieldOk(g) && ReadsField(f, g) && TypedValue(f, prior) && TypedValue(g, v)
    requires EncodeValue(g, v).Some? && |EncodeValue(g, v).value| < TWO_32
    ensures DecodeValue(f, prior, WireType(g.kind), EncodeValue(g, v).value + tail) ==
              match MergeValue(f, prior, g, v) { case None => Fail case Some(x) => Ok(x, tail) }
    decreases g, 1
  {
    hide DecodeNum, NumBytes, DecodeDelimited, Delimited, DecodeFields, MergeFields, EncodeMsg;
    if IsNumeric(g.kind) {
      NumRoundTrip(g.kind, g.dataSize, v.n, tail);
    } else if g.kind.Bytes? {
      DelimitedRoundTrip(v.data, tail);
    } else if g.kind.String? {
      DelimitedRoundTrip(v.data[..StrLen(v.data)], tail);
    } else {
      var sub := EncodeMsg(g.kind.fields, v.slots).value;
      DelimitedRoundTrip(sub, tail);
      var fs, p := f.kind.fields, Progress(InitialSlots(f, prior), {});
      FieldsMerge(fs, p, g.kind.fields, v.slots, [], false);
      assert sub + [] == sub;
      var q := MergeFields(fs, p, g.kind.fields, v.slots);
      if q.Some? {
        DecodeNothing(fs, q.value, false);
        MergeSees(fs, p, g.kind.fields, v.slots);
      }
    }
  }

  /** Decoding goes on with what merging gives, or fails with it. */
  function Continue(fs: seq<Field>, q: Option<Progress>, tail: seq<Byte>, nt: bool): Parsed<Progress>
    requires FieldsOk(fs) && (q.Some? ==> TypedMsg(fs, q.value.m))
  {
    match q
    case None => Fail
    case Some(p) => DecodeFields(fs, p, tail, nt)
  }

  lemma TagNotEmpty(tag: U32, wt: nat)
    ensures |TagBytes(tag, wt)| > 0
  {
  }

  /** One turn of the field loop at a record the reader does not know, or knows as field i. */
  lemma TakeRecord(fs: seq<Field>, p: Progress, tag: U32, wt: nat, payload: seq<Byte>, tail: seq<Byte>,
                   r: Option<Slot>, nt: bool)
    requires FieldsOk(fs) && TypedMsg(fs, p.m) && 0 < tag < 0x1_0000 && wt < 8
    requires IndexOf(fs, tag).None? ==> SkipField(wt, payload + tail) == Ok((), tail)
    requires IndexOf(fs, tag).Some? ==>
               var i := IndexOf(fs, tag).value;
               FieldOk(fs[i]) && TypedSlot(fs[i], p.m[i])
               && DecodeField(fs[i], p.m[i], wt, payload + tail) ==
                   match r { case None => Fail case Some(x) => Ok(x, tail) }
    ensures IndexOf(fs, tag).None? ==>
              DecodeFields(fs, p, TagBytes(tag, wt) + payload + tail, nt) == DecodeFields(fs, p, tail, nt)
    ensures IndexOf(fs, tag).Some? && r.None? ==> DecodeFields(fs, p, TagBytes(tag, wt) + payload + tail, nt) == Fail
    ensures IndexOf(fs, tag).Some? && r.Some? ==>
              var i := IndexOf(fs, tag).value;
              TypedMsg(fs, p.m[i := r.value])
              && DecodeFields(fs, p, TagBytes(tag, wt) + payload + tail, nt) ==
                 DecodeFields(fs, Progress(p.m[i := r.value], Seen(fs, p.seen, i)), tail, nt)
  {
    hide DecodeVarint32, IndexOf, SkipField, DecodeField, FieldOk, TypedSlot, TagBytes;
    var s := TagBytes(tag, wt) + payload + tail;
    assert s == TagBytes(tag, wt) + (payload + tail);
    TagRoundTrip(tag, wt, payload + tail);
    var key := tag * 8 + wt;
    assert key / 8 == tag && key % 8 == wt;
    assert s != [] by { TagNotEmpty(tag, wt); }
    if IndexOf(fs, tag).Some? && r.Some? {
      TypedUpdate(fs, p.m, IndexOf(fs, tag).value, r.value);
    }
  }

  /** Reading one tagged item. */
  lemma {:induction false} RecordMerges(fs: seq<Field>, p: Progress, g: Field, v: Value, tail: seq<Byte>, nt: bool)
    requires FieldsOk(fs) && TypedMsg(fs, p.m) && FieldOk(g) && ReadsTag(fs, g) && TypedValue(g, v)
    requires EncodeRecord(g, v).Some? && |EncodeRecord(g, v).value| < TWO_32
    ensures DecodeFields(fs, p, EncodeRecord(g, v).value + tail, nt) == Continue(fs, Stored(fs, p, g, [v]), tail, nt)
    decreases g, 3
  {
    assert |p.m| == |fs|;
    hide DecodeFields, SkipField, DecodeField, EncodeValue, TagBytes, Store, FieldsOk, TypedMsg;
    var payload := EncodeValue(g, v).value;
    match IndexOf(fs, g.tag)
    case None =>
      SkipsPayload(g, v, tail);
      TakeRecord(fs, p, g.tag, WireType(g.kind), payload, tail, None, nt);
    case Some(i) =>
      FieldsOkAt(fs, i);
      TypedAt(fs, p.m, i);
      StoreReads(fs[i], p.m[i], g, v, tail);
      var r := Store(fs[i], p.m[i], g, v);
      assert StoreAll(fs[i], p.m[i], g, [v]) == r by {
        assert [v][1..] == [];
      }
      TakeRecord(fs, p, g.tag, WireType(g.kind), payload, tail, r, nt);
  }

  lemma StoreReads(f: Field, slot: Slot, g: Field, v: Value, tail: seq<Byte>)
    requires FieldOk(f) && FieldOk(g) && ReadsField(f, g) && TypedSlot(f, slot) && TypedValue(g, v)
    requires EncodeValue(g, v).Some? && |EncodeValue(g, v).value| < TWO_32
    ensures DecodeField(f, slot, WireType(g.kind), EncodeValue(g, v).value + tail) ==
              match Store(f, slot, g, v) { case None => Fail case Some(x) => Ok(x, tail) }
    decreases g, 2
  {
    match slot
    case One(prior) => ValueMerges(f, prior, g, v, tail);
    case Maybe(_, prior) => ValueMerges(f, prior, g, v, tail);
    case Many(items) =>
      DefaultTypedValue(f);
      ValueMerges(f, DefaultValue(f), g, v, tail);
  }

  lemma StoredNothing(fs: seq<Field>, p: Progress, g: Field)
    requires FieldsOk(fs) && TypedMsg(fs, p.m) && FieldOk(g) && ReadsTag(fs, g)
    ensures Stored(fs, p, g, []) == Some(p)
  {
    if IndexOf(fs, g.tag).Some? {
      var i := IndexOf(fs, g.tag).value;
      assert p.m[i := p.m[i]] == p.m;
    }
  }

  lemma StoredCons(fs: seq<Field>, p: Progress, g: Field, vs: seq<Value>)
    requires FieldsOk(fs) && TypedMsg(fs, p.m) && FieldOk(g) && ReadsTag(fs, g)
    requires vs != [] && forall i :: 0 <= i < |vs| ==> TypedValue(g, vs[i])
    ensures Stored(fs, p, g, vs) ==
              match Stored(fs, p, g, [vs[0]]) { case None => None case Some(q) => Stored(fs, q, g, vs[1..]) }
  {
    match IndexOf(fs, g.tag)
    case None =>
    case Some(i) =>
      FieldsOkAt(fs, i);
      TypedAt(fs, p.m, i);
      var first := Store(fs[i], p.m[i], g, vs[0]);
      assert StoreAll(fs[i], p.m[i], g, [vs[0]]) == first by {
        assert [vs[0]][1..] == [];
      }
      assert |p.m| == |fs|;
      hide Store, FieldsOk, TypedMsg, FieldOk, ReadsField;
      if first.Some? {
        TypedUpdate(fs, p.m, i, first.value);
        var q := Progress(p.m[i := first.value], Seen(fs, p.seen, i));
        assert Stored(fs, p, g, [vs[0]]) == Some(q);
        var last := StoreAll(fs[i], first.value, g, vs[1..]);
        assert StoreAll(fs[i], p.m[i], g, vs) == last;
        if last.Some? {
          assert p.m[i := first.value][i := last.value] == p.m[i := last.value];
          assert Seen(fs, Seen(fs, p.seen, i), i) == Seen(fs, p.seen, i);
        }
      }
  }

  /** The items of an array that is not packed, record by record. */
  lemma {:induction false} RecordsMerge(fs: seq<Field>, p: Progress, g: Field, vs: seq<Value>, tail: seq<Byte>,
                                        nt: bool)
    requires FieldsOk(fs) && TypedMsg(fs, p.m) && FieldOk(g) && ReadsTag(fs, g)
    requires forall i :: 0 <= i < |vs| ==> TypedValue(g, vs[i])
    requires EncodeRecords(g, vs).Some? && |EncodeRecords(g, vs).value| < TWO_32
    ensures DecodeFields(fs, p, EncodeRecords(g, vs).value + tail, nt) == Continue(fs, Stored(fs, p, g, vs), tail, nt)
    decreases g, 4, vs
  {
    hide DecodeFields, Stored, EncodeRecord, FieldsOk, TypedMsg, ReadsTag, FieldOk;
    if vs == [] {
      assert EncodeRecords(g, vs).value + tail == tail;
      StoredNothing(fs, p, g);
    } else {
      var first, rest := EncodeRecord(g, vs[0]).value, EncodeRecords(g, vs[1..]).value;
      assert EncodeRecords(g, vs).value + tail == first + (rest + tail);
      RecordMerges(fs, p, g, vs[0], rest + tail, nt);
      StoredCons(fs, p, g, vs);
      var q := Stored(fs, p, g, [vs[0]]);
      if q.Some? {
        RecordsMerge(fs, q.value, g, vs[1..], tail, nt);
      }
    }
  }

  /** The bytes of a packed array, read into an array field. */
  lemma {:induction false} PackedMerges(f: Field, items: seq<Value>, g: Field, vs: seq<Value>)
    requires FieldOk(f) && FieldOk(g) && ReadsField(f, g) && f.rule.Repeated? && IsNumeric(g.kind)
    requires forall i :: 0 <= i < |items| ==> TypedValue(f, items[i])
    requires forall i :: 0 <= i < |vs| ==> TypedValue(g, vs[i])
    ensures DecodePacked(f, items, PackedBytes(g, vs)) ==
              match StoreAll(f, Many(items), g, vs) { case None => None case Some(slot) => Some(slot.items) }
    ensures StoreAll(f, Many(items), g, vs).Some? ==> StoreAll(f, Many(items), g, vs).value.Many?
    decreases vs
  {
    hide DecodeNum, NumBytes, InRange;
    if vs == [] {
    } else {
      var v, rest := vs[0], PackedBytes(g, vs[1..]);
      assert TypedValue(g, v);
      NumRoundTrip(g.kind, g.dataSize, v.n, rest);
      assert PackedBytes(g, vs) == NumBytes(g.kind, g.dataSize, v.n) + rest;
      if |items| < f.arraySize {
        assert Store(f, Many(items), g, v) == Some(Many(items + [v]));
        PackedMerges(f, items + [v], g, vs[1..]);
      }
    }
  }

  /** Reading a packed array: one delimited record, stored item by item. */
  lemma ArrayMerges(fs: seq<Field>, p: Progress, g: Field, vs: seq<Value>, tail: seq<Byte>, nt: bool)
    requires FieldsOk(fs) && TypedMsg(fs, p.m) && FieldOk(g) && ReadsTag(fs, g) && g.rule.Repeated?
    requires vs != [] && IsNumeric(g.kind) && forall i :: 0 <= i < |vs| ==> TypedValue(g, vs[i])
    requires |Delimited(PackedBytes(g, vs))| < TWO_32
    ensures DecodeFields(fs, p, TagBytes(g.tag, WT_STRING) + Delimited(PackedBytes(g, vs)) + tail, nt) ==
              Continue(fs, Stored(fs, p, g, vs), tail, nt)
  {
    assert |p.m| == |fs|;
    hide DecodeFields, FieldsOk, TypedMsg, DecodeDelimited, Delimited, TagBytes, PackedBytes;
    var packed := PackedBytes(g, vs);
    match IndexOf(fs, g.tag)
    case None =>
      SkipsDelimited(packed, tail);
      TakeRecord(fs, p, g.tag, WT_STRING, Delimited(packed), tail, None, nt);
    case Some(i) =>
      FieldsOkAt(fs, i);
      TypedAt(fs, p.m, i);
      DelimitedRoundTrip(packed, tail);
      PackedMerges(fs[i], p.m[i].items, g, vs);
      TakeRecord(fs, p, g.tag, WT_STRING, Delimited(packed), tail, StoreAll(fs[i], p.m[i], g, vs), nt);
  }

  /** Reading everything the encoder wrote for one field. */
  lemma FieldMerges(fs: seq<Field>, p: Progress, g: Field, s: Slot, tail: seq<Byte>, nt: bool)
    requires FieldsOk(fs) && TypedMsg(fs, p.m) && FieldOk(g) && ReadsTag(fs, g) && TypedSlot(g, s)
    requires EncodeField(g, s).Some? && |EncodeField(g, s).value| < TWO_32
    ensures DecodeFields(fs, p, EncodeField(g, s).value + tail, nt) ==
              Continue(fs, Stored(fs, p, g, Emitted(g, s)), tail, nt)
    decreases g, 5
  {
    hide DecodeFields, Stored, EncodeRecord, EncodeRecords, FieldsOk, TypedMsg, ReadsTag, FieldOk, PackedBytes,
         Delimited, TagBytes;
    if Emitted(g, s) == [] {
      StoredNothing(fs, p, g);
      assert EncodeField(g, s).value + tail == tail;
    } else if !g.rule.Repeated? {
      RecordMerges(fs, p, g, s.v, tail, nt);
    } else if IsNumeric(g.kind) {
      ArrayMerges(fs, p, g, s.items, tail, nt);
    } else {
      RecordsMerge(fs, p, g, s.items, tail, nt);
    }
  }

  /**
   * Decoding what the encoder wrote from message n of descriptor gs, under any compatible descriptor
   * fs, into any content p, whatever follows: it is exactly merging n into p.
   */
  lemma {:induction false} FieldsMerge(fs: seq<Field>, p: Progress, gs: seq<Field>, n: seq<Slot>, tail: seq<Byte>,
                                       nt: bool)
    requires FieldsOk(fs) && TypedMsg(fs, p.m) && FieldsOk(gs) && Reads(fs, gs) && TypedMsg(gs, n)
    requires EncodeMsg(gs, n).Some? && |EncodeMsg(gs, n).value| < TWO_32
    ensures DecodeFields(fs, p, EncodeMsg(gs, n).value + tail, nt) == Continue(fs, MergeFields(fs, p, gs, n), tail, nt)
    decreases gs, 6
  {
    hide DecodeFields, Stored, EncodeField;
    if gs == [] {
      assert EncodeMsg(gs, n).value + tail == tail;
    } else {
      var first, rest := EncodeField(gs[0], n[0]).value, EncodeMsg(gs[1..], n[1..]).value;
      assert EncodeMsg(gs, n).value + tail == first + (rest + tail);
      FieldMerges(fs, p, gs[0], n[0], rest + tail, nt);
      var q := Stored(fs, p, gs[0], Emitted(gs[0], n[0]));
      if q.Some? {
        FieldsMerge(fs, q.value, gs[1..], n[1..], tail, nt);
      }
    }
  }
}
