/**
 * The wire format octet by octet, with the numbers of the Protocol Buffers Encoding specification
 * written out, so that encoder and decoder cannot agree on others.
 */
module WireOctets {
  import opened Bytes
  import opened Varint
  import opened Message
  import opened Wire
  import opened SchemaEvolution

  // ----- Fixed-width numbers

  /** Octets of a 32-bit number, the lowest first. */
  function Four(n: U32): (s: seq<Byte>)
    ensures |s| == 4
  {
    [n % 0x100, n / 0x100 % 0x100, n / 0x1_0000 % 0x100, n / 0x100_0000]
  }

  /** Octets of a 64-bit number, the lowest first. */
  function Eight(n: U64): (s: seq<Byte>)
    ensures |s| == 8
  {
    [n % 0x100, n / 0x100 % 0x100, n / 0x1_0000 % 0x100, n / 0x100_0000 % 0x100, n / 0x1_0000_0000 % 0x100,
     n / 0x100_0000_0000 % 0x100, n / 0x1_0000_0000_0000 % 0x100, n / 0x100_0000_0000_0000]
  }

  lemma OneOctet(n: nat, k: nat)
    ensures LittleEndian(n, k + 1) == [n % 0x100] + LittleEndian(n / 0x100, k)
    ensures LittleEndian(n, 0) == []
  {
  }

  lemma FourOctets(n: nat)
    ensures LittleEndian(n, 4) == [n % 0x100, n / 0x100 % 0x100, n / 0x1_0000 % 0x100, n / 0x100_0000 % 0x100]
    ensures n < TWO_32 ==> LittleEndian(n, 4) == Four(n)
  {
    hide LittleEndian;
    assert n / 0x100 / 0x100 == n / 0x1_0000 && n / 0x1_0000 / 0x100 == n / 0x100_0000;
    OneOctet(n, 3);
    OneOctet(n / 0x100, 2);
    OneOctet(n / 0x1_0000, 1);
    OneOctet(n / 0x100_0000, 0);
    OneOctet(n / 0x100_0000 / 0x100, 0);
  }

  function Shifted(n: nat, j: nat): nat { if j == 0 then n else Shifted(n / 0x100, j - 1) }

  lemma {:induction false} LittleEndianSplit(n: nat, j: nat, k: nat, rest: nat)
    requires rest == Shifted(n, j)
    ensures LittleEndian(n, j + k) == LittleEndian(n, j) + LittleEndian(rest, k)
    decreases j
  {
    if j == 0 {
    } else {
      LittleEndianSplit(n / 0x100, j - 1, k, rest);
    }
  }

  lemma TwoOctetsDown(n: nat)
    ensures n / 0x100 / 0x100 == n / 0x1_0000
  {
  }

  lemma FourOctetsDown(n: nat)
    ensures n / 0x1_0000 / 0x1_0000 == n / TWO_32
  {
  }

  lemma ShiftedTwo(n: nat, k: nat)
    ensures Shifted(n, k + 2) == Shifted(n / 0x1_0000, k)
    ensures Shifted(n, 0) == n
  {
    TwoOctetsDown(n);
    assert Shifted(n, k + 2) == Shifted(n / 0x100, k + 1) == Shifted(n / 0x100 / 0x100, k);
  }

  lemma ShiftedFour(n: nat)
    ensures Shifted(n, 4) == n / TWO_32
  {
    hide Shifted;
    ShiftedTwo(n, 2);
    ShiftedTwo(n / 0x1_0000, 0);
    FourOctetsDown(n);
    ShiftedTwo(n / 0x1_0000 / 0x1_0000, 0);
  }

  lemma EightOctets(n: nat)
    ensures var high := n / TWO_32;
            LittleEndian(n, 8) == [n % 0x100, n / 0x100 % 0x100, n / 0x1_0000 % 0x100, n / 0x100_0000 % 0x100,
                                   high % 0x100, high / 0x100 % 0x100, high / 0x1_0000 % 0x100,
                                       high / 0x100_0000 % 0x100]
  {
    FourOctets(n);
    FourOctets(n / TWO_32);
    ShiftedFour(n);
    LittleEndianSplit(n, 4, 4, n / TWO_32);
  }

  lemma HighOctets(n: U64, high: nat)
    requires high == n / TWO_32
    ensures high / 0x100 == n / 0x100_0000_0000 && high / 0x1_0000 == n / 0x1_0000_0000_0000
    ensures high / 0x100_0000 == high / 0x100_0000 % 0x100 == n / 0x100_0000_0000_0000
  {
  }

  lemma EightIs(n: U64, s: seq<Byte>)
    requires |s| == 8 && s[0] == n % 0x100 && s[1] == n / 0x100 % 0x100 && s[2] == n / 0x1_0000 % 0x100
    requires s[3] == n / 0x100_0000 % 0x100 && s[4] == n / TWO_32 % 0x100 && s[5] == n / 0x100_0000_0000 % 0x100
    requires s[6] == n / 0x1_0000_0000_0000 % 0x100 && s[7] == n / 0x100_0000_0000_0000
    ensures s == Eight(n)
  {
  }

  lemma AllEight(n: U64)
    ensures LittleEndian(n, 8) == Eight(n)
  {
    hide Eight, LittleEndian;
    EightOctets(n);
    HighOctets(n, n / TWO_32);
    EightIs(n, LittleEndian(n, 8));
  }

  // ----- What the encoder emits

  /** A number on the wire: a varint, signed ones in 64-bit complement or zigzag, or four or eight octets. */
  lemma NumberOctets(k: Kind, dataSize: nat, n: int)
    requires IsNumeric(k) && SizeFits(k, dataSize) && InRange(k, dataSize, n)
    ensures k.Fixed32? ==> 0 <= n < TWO_32 && NumBytes(k, dataSize, n) == Four(n)
    ensures k.Fixed64? ==> 0 <= n < TWO_64 && NumBytes(k, dataSize, n) == Eight(n)
    ensures k.Bool? || k.UVarint? ==> n >= 0 && NumBytes(k, dataSize, n) == VarintBytes(n)
    ensures k.Varint? ==> NumBytes(k, dataSize, n) == VarintBytes(n % 0x1_0000_0000_0000_0000)
    ensures k.SVarint? ==> NumBytes(k, dataSize, n) == VarintBytes(if n < 0 then -2 * n - 1 else 2 * n)
  {
    hide LittleEndian, VarintBytes, Four, Eight, ZigZag;
    if k.Fixed32? {
      FourOctets(n);
    } else if k.Fixed64? {
      AllEight(n);
    } else if k.SVarint? {
      ZigZagBijection(n, 0);
    }
  }

  /** A record is the varint of eight times the tag plus 0, 1, 2 or 5 by type, and the payload. */
  lemma RecordOctets(f: Field, v: Value)
    requires FieldOk(f) && TypedValue(f, v) && EncodeValue(f, v).Some?
    ensures EncodeRecord(f, v).Some?
    ensures f.kind.Fixed32? ==> 0 <= v.n < TWO_32 && EncodeRecord(f, v).value == VarintBytes(f.tag * 8 + 5) + Four(v.n)
    ensures f.kind.Fixed64? ==> 0 <= v.n < TWO_64 && EncodeRecord(f, v).value == VarintBytes(f.tag * 8 + 1) + Eight(v.n)
    ensures IsNumeric(f.kind) && !f.kind.Fixed32? && !f.kind.Fixed64? ==>
              EncodeRecord(f, v).value == VarintBytes(f.tag * 8) + NumBytes(f.kind, f.dataSize, v.n)
    ensures f.kind.Bytes? ==>
              EncodeRecord(f, v).value == VarintBytes(f.tag * 8 + 2) + (VarintBytes(|v.data|) + v.data)
    ensures f.kind.String? ==>
              var n := StrLen(v.data);
              EncodeRecord(f, v).value == VarintBytes(f.tag * 8 + 2) + (VarintBytes(n) + v.data[..n])
    ensures f.kind.Submessage? ==>
              var sub := EncodeMsg(f.kind.fields, v.slots);
              sub.Some? && EncodeRecord(f, v).value ==
                             VarintBytes(f.tag * 8 + 2) + (VarintBytes(|sub.value|) + sub.value)
  {
    hide NumBytes, VarintBytes, EncodeMsg;
    if IsNumeric(f.kind) {
      NumberOctets(f.kind, f.dataSize, v.n);
    }
  }

  lemma PackedItem(f: Field, items: seq<Value>)
    requires FieldOk(f) && IsNumeric(f.kind) && forall i :: 0 <= i < |items| ==> TypedValue(f, items[i])
    ensures items != [] ==> items[0].Num? && InRange(f.kind, f.dataSize, items[0].n)
    ensures items != [] ==>
              PackedBytes(f, items) == NumBytes(f.kind, f.dataSize, items[0].n) + PackedBytes(f, items[1..])
    ensures items == [] ==> PackedBytes(f, items) == []
  {
    hide NumBytes, InRange;
    if items != [] {
      assert TypedValue(f, items[0]);
    }
  }

  /** An array of numbers is one record of wire type 2 with its items' octets one after the other. */
  lemma PackedOctets(f: Field, items: seq<Value>)
    requires FieldOk(f) && f.rule.Repeated? && IsNumeric(f.kind) && 0 < |items| <= f.arraySize
    requires forall i :: 0 <= i < |items| ==> TypedValue(f, items[i])
    ensures var p := PackedBytes(f, items);
            EncodeField(f, Many(items)) == Some(VarintBytes(f.tag * 8 + 2) + (VarintBytes(|p|) + p))
  {
    hide VarintBytes, PackedBytes, EncodeRecords, EncodeRecord, FieldOk, TypedValue;
    assert EncodeField(f, Many(items)) == EncodeArray(f, items);
  }

  /** A string on the wire ends before the first NUL of its array. */
  lemma {:induction false} StringEnds(chars: seq<Byte>)
    ensures var n := StrLen(chars);
            (forall i :: 0 <= i < n ==> chars[i] != 0) && (n < |chars| ==> chars[n] == 0)
  {
    if chars == [] || chars[0] == 0 {
    } else {
      StringEnds(chars[1..]);
      assert forall i :: 0 < i < StrLen(chars) ==> chars[i] == chars[1..][i - 1];
    }
  }

  lemma RecordNotEmpty(f: Field, v: Value)
    requires FieldOk(f) && TypedValue(f, v)
    ensures EncodeRecord(f, v) != Some([])
  {
    hide EncodeValue;
    assert |VarintBytes(f.tag * 8 + WireType(f.kind))| > 0;
  }

  lemma ArrayNotEmpty(f: Field, items: seq<Value>)
    requires FieldOk(f) && forall i :: 0 <= i < |items| ==> TypedValue(f, items[i])
    ensures EncodeArray(f, items) == Some([]) <==> items == []
  {
    hide EncodeRecord, PackedBytes, VarintBytes;
    if items != [] {
      RecordNotEmpty(f, items[0]);
      if EncodeRecords(f, items).Some? {
        assert EncodeRecords(f, items).value == EncodeRecord(f, items[0]).value + EncodeRecords(f, items[1..]).value;
      }
    }
  }

  lemma SlotLeftOut(f: Field, s: Slot)
    requires FieldOk(f) && TypedSlot(f, s)
    ensures EncodeField(f, s) == Some([]) <==> IsDefaultSlot(f, s)
  {
    hide EncodeRecord, EncodeArray, IsDefaultValue, TypedValue;
    match s
    case Many(items) => ArrayNotEmpty(f, items);
    case _ => RecordNotEmpty(f, s.v);
  }

  lemma {:induction false} EmptyIsDefault(fs: seq<Field>, m: seq<Slot>)
    requires FieldsOk(fs) && TypedMsg(fs, m)
    ensures EncodeMsg(fs, m) == Some([]) <==> IsDefaultMsg(fs, m)
  {
    if fs == [] {
    } else {
      EmptyIsDefault(fs[1..], m[1..]);
      SlotLeftOut(fs[0], m[0]);
      hide EncodeField, IsDefaultSlot, FieldOk, TypedSlot;
      var first, rest := EncodeField(fs[0], m[0]), EncodeMsg(fs[1..], m[1..]);
      if first.Some? && rest.Some? {
        assert first.value + rest.value == [] <==> first.value == [] && rest.value == [];
      }
    }
  }

  /**
   * A singular field is left out if it is the number zero, has no bytes, is a string that begins with its
   * terminator, or is a submessage of which nothing would be emitted, at any depth.
   */
  lemma LeftOut(f: Field, v: Value)
    requires FieldOk(f) && f.rule.Singular? && TypedValue(f, v)
    ensures IsNumeric(f.kind) ==> (EncodeField(f, One(v)) == Some([]) <==> v.n == 0)
    ensures f.kind.Bytes? ==> (EncodeField(f, One(v)) == Some([]) <==> v.data == [])
    ensures f.kind.String? ==> (EncodeField(f, One(v)) == Some([]) <==> v.data == [] || v.data[0] == 0)
    ensures f.kind.Submessage? ==>
              (EncodeField(f, One(v)) == Some([]) <==> EncodeMsg(f.kind.fields, v.slots) == Some([]))
  {
    SlotLeftOut(f, One(v));
    if f.kind.Submessage? {
      EmptyIsDefault(f.kind.fields, v.slots);
    }
    hide EncodeField, EncodeMsg;
  }

  // ----- What the decoder reads

  /** The number whose two's complement in the given width v is. */
  function Signed(v: nat, dataSize: nat): int
    requires v < TWO_64
  {
    if dataSize == 8 then if v < 0x8000_0000_0000_0000 then v else v - 0x1_0000_0000_0000_0000
    else if v % 0x1_0000_0000 < 0x8000_0000 then v % 0x1_0000_0000 else v % 0x1_0000_0000 - 0x1_0000_0000
  }

  /** Half of the numbers of the given width: signed ones lie between minus this and this. */
  function Half(dataSize: nat): int {
    if dataSize == 1 then 0x80 else if dataSize == 2 then 0x8000
    else if dataSize == 4 then 0x8000_0000 else 0x8000_0000_0000_0000
  }

  /** What any varint is read as, emitted by this encoder or not: refused if the field is too narrow for it. */
  lemma VarintsRead(k: Kind, dataSize: nat, v: U64, s: seq<Byte>)
    requires SizeFits(k, dataSize)
    ensures k.Bool? && v < TWO_32 ==>
              DecodeNum(k, dataSize, VarintBytes(v) + s) == Ok(if v == 0 then 0 else 1, s)
    ensures k.UVarint? ==>
              DecodeNum(k, dataSize, VarintBytes(v) + s) == if v < 2 * Half(dataSize) then Ok(v, s) else Fail
    ensures k.SVarint? ==>
              var n := if v % 2 == 0 then v / 2 else -(v / 2) - 1;
              DecodeNum(k, dataSize, VarintBytes(v) + s) ==
                if -Half(dataSize) <= n < Half(dataSize) then Ok(n, s) else Fail
    ensures k.Varint? ==>
              var n := Signed(v, dataSize);
              DecodeNum(k, dataSize, VarintBytes(v) + s) ==
                if -Half(dataSize) <= n < Half(dataSize) then Ok(n, s) else Fail
  {
    VarintRoundTrip(v, s);
    hide VarintBytes, DecodeVarint, DecodeVarint32;
  }

  /** What four or eight octets are read as. */
  lemma FixedRead(k: Kind, dataSize: nat, n: U64, s: seq<Byte>)
    requires SizeFits(k, dataSize)
    ensures k.Fixed32? && n < TWO_32 ==> DecodeNum(k, dataSize, Four(n) + s) == Ok(n, s)
    ensures k.Fixed64? ==> DecodeNum(k, dataSize, Eight(n) + s) == Ok(n, s)
  {
    if k.Fixed32? && n < TWO_32 {
      FixedRoundTrip(n, s);
      FourOctets(n);
    } else if k.Fixed64? {
      FixedRoundTrip(n, s);
      AllEight(n);
    }
    hide LittleEndian, FromLittleEndian, Four, Eight;
  }

  /** Strings are read if they leave room for a 16-bit size or a terminator, submessages over what is there. */
  lemma StringsRead(f: Field, prior: Value, data: seq<Byte>, s: seq<Byte>)
    requires FieldOk(f) && TypedValue(f, prior) && |data| < TWO_32
    ensures f.kind.Bytes? ==>
              DecodeValue(f, prior, 2, VarintBytes(|data|) + data + s) ==
                if |data| + 2 <= f.dataSize then Ok(Blob(data), s) else Fail
    ensures f.kind.String? ==>
              DecodeValue(f, prior, 2, VarintBytes(|data|) + data + s) ==
                if |data| + 1 <= f.dataSize then Ok(Blob(data), s) else Fail
    ensures f.kind.Submessage? && !f.rule.Repeated? ==>
              var r := DecodeMsg(f.kind.fields, prior.slots, data, false);
              && (r.Fail? ==> DecodeValue(f, prior, 2, VarintBytes(|data|) + data + s).Fail?)
              && (r.Ok? ==> DecodeValue(f, prior, 2, VarintBytes(|data|) + data + s) == Ok(Msg(r.value), s))
  {
    DelimitedRoundTrip(data, s);
    hide VarintBytes, DecodeDelimited, DecodeMsg;
  }

  /** The wire type a field is read under, by number; 2 also for an array of numbers. */
  lemma WireTypeDecides(f: Field, slot: Slot, w: nat, s: seq<Byte>)
    requires FieldOk(f) && TypedSlot(f, slot) && w < 8 && DecodeField(f, slot, w, s).Ok?
    ensures w == 0 || w == 1 || w == 2 || w == 5
    ensures w == 0 ==> IsNumeric(f.kind) && !f.kind.Fixed32? && !f.kind.Fixed64?
    ensures w == 1 ==> f.kind.Fixed64?
    ensures w == 2 ==> IsNumeric(f.kind) ==> f.rule.Repeated?
    ensures w == 5 ==> f.kind.Fixed32?
  {
    hide DecodeNum, DecodePacked, DecodeDelimited, DecodeMsg;
  }

  /** An unknown field of wire type 0, 1, 2 or 5 is a varint, 8 octets, a counted string or 4 octets. */
  lemma SkipOctets(w: nat, payload: seq<Byte>, s: seq<Byte>)
    ensures w == 0 && payload != [] && VarintLength(payload) == |payload| ==> SkipField(w, payload + s) == Ok((), s)
    ensures w == 0 && VarintLength(s) == 0 ==> SkipField(w, s) == Fail
    ensures w == 1 && |payload| == 8 ==> SkipField(w, payload + s) == Ok((), s)
    ensures w == 1 && |s| < 8 ==> SkipField(w, s) == Fail
    ensures w == 2 && |payload| < TWO_32 ==>
              SkipField(w, VarintBytes(|payload|) + payload + s) == Ok((), s)
    ensures w == 2 && |payload| < TWO_32 && |s| < |payload| ==> SkipField(w, VarintBytes(|payload|) + s) == Fail
    ensures w == 5 && |payload| == 4 ==> SkipField(w, payload + s) == Ok((), s)
    ensures w == 5 && |s| < 4 ==> SkipField(w, s) == Fail
    ensures w != 0 && w != 1 && w != 2 && w != 5 ==> SkipField(w, s) == Fail
  {
    hide VarintBytes, DecodeVarint32;
    assert (payload + s)[|payload|..] == s;
    if w == 0 && payload != [] && VarintLength(payload) == |payload| {
      VarintLengthExtend(payload, s);
    } else if w == 2 && |payload| < TWO_32 {
      DelimitedRoundTrip(payload, s);
      VarintRoundTrip(|payload|, s);
    }
  }

  lemma KeyRoundTrip(key: U32, s: seq<Byte>)
    ensures VarintBytes(key) + s != [] && DecodeVarint32(VarintBytes(key) + s) == Ok(key, s)
  {
    VarintRoundTrip(key, s);
  }

  /** A key is eight times the tag plus the wire type; tag 0 ends a null-terminated message and spoils any other. */
  lemma KeyDecides(fs: seq<Field>, p: Progress, tag: U32, w: nat, s: seq<Byte>, nt: bool)
    requires FieldsOk(fs) && TypedMsg(fs, p.m) && tag < 0x2000_0000 && w < 8
    ensures tag == 0 ==>
              DecodeFields(fs, p, VarintBytes(tag * 8 + w) + s, nt) == if nt then Ok(p, s) else Fail
    ensures tag != 0 && TakeField(fs, p, tag, w, s).Fail? ==>
              DecodeFields(fs, p, VarintBytes(tag * 8 + w) + s, nt).Fail?
    ensures tag != 0 && TakeField(fs, p, tag, w, s).Ok? ==>
              DecodeFields(fs, p, VarintBytes(tag * 8 + w) + s, nt) ==
                DecodeFields(fs, TakeField(fs, p, tag, w, s).value, TakeField(fs, p, tag, w, s).rest, nt)
  {
    var key := tag * 8 + w;
    hide VarintBytes, DecodeVarint32, TakeField, FieldsOk, TypedMsg;
    KeyRoundTrip(key, s);
    assert key / 8 == tag && key % 8 == w;
  }
}
