/**
 * The encoder on an output stream: either a buffer with a limit or a sizing stream that only counts.
 * Every routine is proved to emit exactly the bytes of the wire format, to succeed exactly when they
 * fit, and to touch no memory outside its limit.
 */
module OutputStream {
  import opened Bytes
  import opened Varint
  import opened Message
  import opened Wire
  import WireOctets
  import opened Descriptors
  import FieldInfo

  // ----- What writing does, on values

  /** Memory, write position and bytes counted so far. */
  datatype Snapshot = Snapshot(mem: seq<Byte>, pos: nat, count: nat)

  /** A stream's fixed properties. */
  datatype Limits = Limits(sizing: bool, maxSize: nat) {
    predicate Admits(s: Snapshot) {
      !sizing ==> s.count <= maxSize && s.pos + (maxSize - s.count) <= |s.mem|
    }

    predicate HasRoom(s: Snapshot, n: nat) { sizing || s.count + n <= maxSize }

    function After(s: Snapshot, b: seq<Byte>): (r: Snapshot)
      requires Admits(s) && HasRoom(s, |b|)
      ensures Admits(r)
    {
      if sizing then Snapshot(s.mem, s.pos, s.count + |b|)
      else Snapshot(s.mem[..s.pos] + b + s.mem[s.pos + |b|..], s.pos + |b|, s.count + |b|)
    }

    /** Nothing outside the room the stream had has changed. */
    predicate Confined(s: Snapshot, t: Snapshot)
      requires Admits(s)
    {
      && |t.mem| == |s.mem|
      && (sizing ==> t.mem == s.mem)
      && (!sizing ==>
            var end := s.pos + (maxSize - s.count);
            t.mem[..s.pos] == s.mem[..s.pos] && t.mem[end..] == s.mem[end..])
    }

    /** Between s and t exactly w has been written. */
    predicate Reached(s: Snapshot, t: Snapshot, w: seq<Byte>) {
      Admits(s) && HasRoom(s, |w|) && t == After(s, w)
    }

    /** Writing b, if there is anything to write: success exactly when it fits, and then all of it. */
    predicate Writes(s: Snapshot, t: Snapshot, b: Option<seq<Byte>>, ok: bool)
      requires Admits(s)
    {
      && Admits(t)
      && (ok <==> b.Some? && HasRoom(s, |b.value|))
      && (ok ==> t == After(s, b.value))
      && Confined(s, t)
    }
  }

  function Cat(a: seq<Byte>, b: Option<seq<Byte>>): Option<seq<Byte>> {
    match b
    case None => None
    case Some(c) => Some(a + c)
  }

  lemma AfterConfined(l: Limits, s: Snapshot, a: seq<Byte>)
    requires l.Admits(s) && l.HasRoom(s, |a|)
    ensures l.Confined(s, l.After(s, a))
  {
  }

  /** Writing a and then b is writing a + b. */
  lemma AfterTwice(l: Limits, s: Snapshot, a: seq<Byte>, b: seq<Byte>)
    requires l.Admits(s) && l.HasRoom(s, |a| + |b|)
    ensures l.After(l.After(s, a), b) == l.After(s, a + b)
  {
    if !l.sizing {
      var mid := l.After(s, a).mem;
      assert mid[..s.pos + |a|] == s.mem[..s.pos] + a;
      assert mid[s.pos + |a| + |b|..] == s.mem[s.pos + |a| + |b|..];
      assert s.mem[..s.pos] + a + b == s.mem[..s.pos] + (a + b);
    }
  }

  lemma ConfinedTwice(l: Limits, s: Snapshot, a: seq<Byte>, t: Snapshot)
    requires l.Admits(s) && l.HasRoom(s, |a|) && l.Confined(l.After(s, a), t)
    ensures l.Confined(s, t)
  {
    if !l.sizing {
      var mid := l.After(s, a);
      var end := s.pos + (l.maxSize - s.count);
      assert mid.pos + (l.maxSize - mid.count) == end;
      assert t.mem[..s.pos] == t.mem[..mid.pos][..s.pos] == mid.mem[..mid.pos][..s.pos] == s.mem[..s.pos];
      assert mid.mem[end..] == s.mem[end..];
    }
  }

  lemma WritesTwice(l: Limits, s: Snapshot, a: seq<Byte>, t: Snapshot, b: Option<seq<Byte>>, ok: bool)
    requires l.Admits(s) && l.HasRoom(s, |a|) && l.Writes(l.After(s, a), t, b, ok)
    ensures l.Writes(s, t, Cat(a, b), ok)
  {
    ConfinedTwice(l, s, a, t);
    if ok {
      AfterTwice(l, s, a, b.value);
    }
  }

  /** A failure while writing the beginning is a failure to write the whole. */
  lemma FailsWhole(l: Limits, s: Snapshot, t: Snapshot, a: Option<seq<Byte>>, b: Option<seq<Byte>>)
    requires l.Admits(s) && l.Writes(s, t, a, false)
    requires b.Some? ==> a.Some? && |a.value| <= |b.value|
    ensures l.Writes(s, t, b, false)
  {
  }

  /** Two encodings one after the other. */
  function Then(a: Option<seq<Byte>>, b: Option<seq<Byte>>): Option<seq<Byte>> {
    if a.Some? && b.Some? then Some(a.value + b.value) else None
  }

  lemma CatThen(w: seq<Byte>, a: Option<seq<Byte>>, b: Option<seq<Byte>>)
    ensures a.None? ==> Cat(w, Then(a, b)).None?
    ensures a.Some? ==> Cat(w, Then(a, b)) == Cat(w + a.value, b)
  {
    if a.Some? && b.Some? {
      assert w + (a.value + b.value) == w + a.value + b.value;
    }
  }

  /** One step of a loop that writes b with rest still to come: it has written more, or the whole fails. */
  lemma WritesStep(l: Limits, s: Snapshot, w: seq<Byte>, mid: Snapshot, b: Option<seq<Byte>>, rest: Option<seq<Byte>>,
                   whole: Option<seq<Byte>>, t: Snapshot, ok: bool)
    requires l.Reached(s, mid, w) && l.Writes(mid, t, b, ok) && whole == Cat(w, Then(b, rest))
    ensures ok ==> b.Some? && l.Reached(s, t, w + b.value) && whole == Cat(w + b.value, rest)
    ensures !ok ==> l.Writes(s, t, whole, false)
  {
    WritesTwice(l, s, w, t, b, ok);
    hide Limits.After, Limits.Admits, Limits.Confined;
    CatThen(w, b, rest);
    if !ok {
      FailsWhole(l, s, t, Cat(w, b), whole);
    }
  }

  lemma CatNothing(b: Option<seq<Byte>>)
    ensures Cat([], b) == b
  {
    if b.Some? {
      assert [] + b.value == b.value;
    }
  }

  lemma AfterNothing(l: Limits, s: Snapshot)
    requires l.Admits(s)
    ensures l.HasRoom(s, 0) && l.After(s, []) == s
  {
    if !l.sizing {
      assert s.mem[..s.pos] + [] + s.mem[s.pos..] == s.mem;
    }
  }

  lemma ReachedStart(l: Limits, s: Snapshot, b: Option<seq<Byte>>)
    requires l.Admits(s)
    ensures l.Reached(s, s, []) && Cat([], b) == b
  {
    AfterNothing(l, s);
    CatNothing(b);
  }

  lemma ReachedEnd(l: Limits, s: Snapshot, w: seq<Byte>, t: Snapshot)
    requires l.Reached(s, t, w)
    ensures l.Writes(s, t, Cat(w, Some([])), true)
  {
    AfterConfined(l, s, w);
    assert w + [] == w;
  }

  lemma ReachedValid(l: Limits, s: Snapshot, t: Snapshot, w: seq<Byte>)
    requires l.Reached(s, t, w)
    ensures l.Admits(t)
  {
  }

  lemma RecordsHead(f: Field, items: seq<Value>, i: nat)
    requires FieldOk(f) && i < |items| && forall j :: 0 <= j < |items| ==> TypedValue(f, items[j])
    ensures TypedValue(f, items[i]) &&
              EncodeRecords(f, items[i..]) == Then(EncodeRecord(f, items[i]), EncodeRecords(f, items[i + 1..]))
  {
    hide EncodeRecord;
    assert items[i..][1..] == items[i + 1..];
  }

  lemma MsgHead(fs: seq<Field>, m: seq<Slot>, i: nat)
    requires |m| == |fs| && i < |fs| && FieldsOk(fs[i..]) && TypedMsg(fs[i..], m[i..]) && SizesFit(fs[i..], m[i..])
    ensures FieldOk(fs[i]) && TypedSlot(fs[i], m[i]) && SizesFitSlot(fs[i], m[i])
    ensures FieldsOk(fs[i + 1..]) && TypedMsg(fs[i + 1..], m[i + 1..]) && SizesFit(fs[i + 1..], m[i + 1..])
    ensures EncodeMsg(fs[i..], m[i..]) == Then(EncodeField(fs[i], m[i]), EncodeMsg(fs[i + 1..], m[i + 1..]))
  {
    hide EncodeField, FieldOk, TypedSlot, SizesFitSlot;
    assert fs[i..][1..] == fs[i + 1..] && m[i..][1..] == m[i + 1..];
  }

  lemma MsgEnd(fs: seq<Field>, m: seq<Slot>)
    requires |m| == |fs|
    ensures FieldsOk(fs[|fs|..]) && TypedMsg(fs[|fs|..], m[|fs|..]) && EncodeMsg(fs[|fs|..], m[|fs|..]) == Some([])
  {
  }

  lemma MulTimes(a: nat, d: nat)
    ensures a * (0x80 * d) == 0x80 * (a * d)
  {
  }

  lemma MulPositive(a: nat, d: nat)
    requires d > 0
    ensures a > 0 ==> a * d > 0
  {
  }

  /** Emitting the pending group of a value split into a pending group, a low and a high part. */
  lemma EmitLow(byte: nat, low: nat, high: nat, c: nat)
    requires byte < 0x80 && 0 < c && c % 0x80 == 0 && (low > 0 || high > 0)
    ensures byte + 0x80 * low + high * c >= 0 && low % 0x80 + 0x80 * (low / 0x80) + high * (c / 0x80) >= 0
    ensures VarintBytes(byte + 0x80 * low + high * c) ==
              [0x80 + byte] + VarintBytes(low % 0x80 + 0x80 * (low / 0x80) + high * (c / 0x80))
  {
    var d := c / 0x80;
    assert c == 0x80 * d && d > 0;
    MulTimes(high, d);
    var rest := low + high * d;
    assert rest > 0 by { MulPositive(high, d); }
    var v := byte + 0x80 * low + high * c;
    assert v == byte + 0x80 * rest;
    assert v >= 0x80 && v % 0x80 == byte && v / 0x80 == rest;
  }

  lemma EmitHigh(byte: nat, high: nat)
    requires byte < 0x80 && high > 0
    ensures VarintBytes(byte + 0x80 * high) == [0x80 + byte] + VarintBytes(high % 0x80 + 0x80 * (high / 0x80))
  {
    var v := byte + 0x80 * high;
    assert v >= 0x80 && v % 0x80 == byte && v / 0x80 == high;
  }

  /** What the shifts of the low half leave: the weight of the high half after i groups, and bounds. */
  function HighWeight(i: nat): nat {
    if i == 0 then TWO_32 else if i == 1 then 0x200_0000 else if i == 2 then 0x4_0000
    else if i == 3 then 0x800 else 0x10
  }

  /** The value not yet emitted after i groups. */
  function Pending(byte: nat, low: nat, high: nat, i: nat): nat {
    byte + 0x80 * low + high * HighWeight(i)
  }

  function LowLimit(i: nat): nat {
    if i == 0 then 0x200_0000 else if i == 1 then 0x4_0000 else if i == 2 then 0x800 else if i == 3 then 0x10 else 1
  }

  function HighLimit(i: nat): nat {
    if i == 4 then 0x2000_0000 else if i == 5 then 0x40_0000 else if i == 6 then 0x8000
    else if i == 7 then 0x100 else if i == 8 then 2 else 1
  }

  /** (uint32_t)value and (uint32_t)(value >> 32) */
  function Low32(v: U64): U32 { v % TWO_32 }

  function High32(v: U64): U32 { v / TWO_32 }

  // ----- Content checks

  /** The character of a string array at i: what the message holds, then the terminator. */
  function CharAt(chars: seq<Byte>, i: nat): Byte { if i < |chars| then chars[i] else 0 }

  lemma TypedLength(fs: seq<Field>, m: seq<Slot>)
    requires TypedMsg(fs, m)
    ensures |m| == |fs|
  {
  }

  /** A message is default when every field is, and not when field k is not. */
  lemma {:induction false} DefaultsTogether(fs: seq<Field>, m: seq<Slot>, k: nat)
    requires TypedMsg(fs, m) && k <= |fs|
    ensures k < |fs| && TypedSlot(fs[k], m[k]) && !IsDefaultSlot(fs[k], m[k]) ==> !IsDefaultMsg(fs, m)
    ensures (forall j :: 0 <= j < |fs| ==> TypedSlot(fs[j], m[j]) && IsDefaultSlot(fs[j], m[j])) ==> IsDefaultMsg(fs, m)
  {
    hide IsDefaultSlot, TypedSlot;
    if fs == [] {
    } else {
      DefaultsTogether(fs[1..], m[1..], if k == 0 then 0 else k - 1);
    }
  }

  /** pb_check_proto3_default_value: every field of a submessage is looked at until one is not default. */
  method CheckDefault(shown: FieldInfo.Loaded, sub: Descriptor, ghost f: Field, s: Slot) returns (isDefault: bool)
    requires TypedSlot(f, s) && Shows(shown, f) && (f.kind.Submessage? ==> Describes(sub, f.kind.fields))
    ensures isDefault <==> IsDefaultSlot(f, s)
    decreases f
  {
    hide Describes, TypedMsg, IsDefaultMsg;
    var htype, ltype := FieldInfo.HType(shown.typ), FieldInfo.LType(shown.typ);
    if htype == HTYPE_REQUIRED {
      return false;
    } else if htype == HTYPE_REPEATED {
      return |s.items| == 0;
    } else if htype == HTYPE_OPTIONAL && shown.sizeOffset != 0 {
      return !s.has;
    }
    if ltype <= LTYPE_LAST_PACKABLE {
      return s.v.n == 0;
    } else if ltype == LTYPE_BYTES {
      return |s.v.data| == 0;
    } else if ltype == LTYPE_STRING {
      return CharAt(s.v.data, 0) == 0;
    }
    isDefault := CheckDefaultFields(sub, f.kind.fields, s.v.slots);
  }

  /** Its loop over the fields of a submessage. */
  method CheckDefaultFields(d: Descriptor, ghost fs: seq<Field>, m: seq<Slot>) returns (isDefault: bool)
    requires Describes(d, fs) && TypedMsg(fs, m)
    ensures isDefault <==> IsDefaultMsg(fs, m)
    decreases fs
  {
    hide Describes, IsDefaultSlot, FieldInfo.WellFormed, FieldInfo.Words, FieldInfo.LargestTag,
         FieldInfo.FieldIter.Valid, TypedMsg, IsDefaultMsg;
    DescribedCount(d, fs);
    TypedLength(fs, m);
    var iter := new FieldInfo.FieldIter(d.infos, FieldInfo.Words(d.infos), |d.infos|, FieldInfo.LargestTag(d.infos));
    var more := |d.infos| > 0;
    ghost var k: nat := 0;
    while more
      invariant iter.Valid() && iter.fields == d.infos && fresh(iter) && k <= |fs|
      invariant more ==> iter.index == k < |fs|
      invariant !more ==> k == |fs|
      invariant forall j :: 0 <= j < k ==> TypedSlot(fs[j], m[j]) && IsDefaultSlot(fs[j], m[j])
      decreases |fs| - k
    {
      ShownByIterator(iter, d, fs, k);
      TypedAt(fs, m, k);
      var sub := if iter.submessageIndex < |d.subs| then d.subs[iter.submessageIndex] else d;
      isDefault := CheckDefault(iter.current, sub, fs[k], m[iter.index]);
      if !isDefault {
        DefaultsTogether(fs, m, k);
        return;
      }
      IterNotEmpty(iter);
      more := iter.Next();
      k := k + 1;
    }
    DefaultsTogether(fs, m, k);
    isDefault := true;
  }

  /** pb_encode_tag_for_field: the wire type of a scalar type. */
  function WireTypeOf(ltype: nat): nat {
    if ltype == LTYPE_FIXED32 then WT_32BIT
    else if ltype == LTYPE_FIXED64 then WT_64BIT
    else if ltype <= LTYPE_LAST_PACKABLE then WT_VARINT
    else WT_STRING
  }

  /** The scan of pb_enc_string: the length up to a NUL that must come within the array. */
  method ScanString(chars: seq<Byte>, dataSize: nat) returns (ok: bool, size: nat)
    ensures ok <==> StrLen(chars) < dataSize
    ensures ok ==> size == StrLen(chars)
  {
    size := 0;
    if dataSize == 0 {
      return false, 0;
    }
    var maxSize := dataSize - 1;
    assert chars[0..] == chars;
    while size < maxSize && CharAt(chars, size) != 0
      invariant size <= maxSize && size <= |chars| && StrLen(chars) == size + StrLen(chars[size..])
    {
      assert chars[size..][1..] == chars[size + 1..];
      size := size + 1;
    }
    ok := CharAt(chars, size) == 0;
  }

  // ----- Pieces of the stream's routines

  function SubBytes(b: Option<seq<Byte>>): Option<seq<Byte>> {
    if b.Some? then Some(Delimited(b.value)) else None
  }

  lemma NothingConfined(l: Limits, s: Snapshot)
    requires l.Admits(s)
    ensures l.Confined(s, s)
  {
  }

  lemma NoRoom(l: Limits, s: Snapshot, n: nat)
    requires !l.sizing && s.count + n > l.maxSize
    ensures !l.HasRoom(s, n)
  {
  }

  lemma SizerKeeps(l: Limits, s: Snapshot, t: Snapshot)
    requires l.sizing && l.Admits(s) && l.Confined(s, t)
    ensures t.mem == s.mem
  {
  }

  lemma SizerCounts(l: Limits, s: Snapshot, b: seq<Byte>)
    requires l.sizing
    ensures l.Admits(s) && l.HasRoom(s, |b|) && l.After(s, b).count == s.count + |b|
  {
  }

  /**
   * A substream limited to the length of b, started at the write position, takes b and ends where the stream goes
   * on.
   */
  lemma SubAfter(l: Limits, s: Snapshot, b: seq<Byte>)
    requires !l.sizing && l.Admits(s) && s.count + |b| <= l.maxSize
    ensures s.pos + |b| <= |s.mem| && l.HasRoom(s, |b|)
    ensures var sub, start := Limits(false, |b|), Snapshot(s.mem, s.pos, 0);
            && sub.Admits(start) && sub.HasRoom(start, |b|)
            && l.After(s, b).mem == sub.After(start, b).mem && l.After(s, b).pos == sub.After(start, b).pos
            && l.After(s, b).count == s.count + |b| && sub.After(start, b).count == |b|
  {
  }

  lemma PackedHead(f: Field, items: seq<Value>, i: nat)
    requires FieldOk(f) && IsNumeric(f.kind) && i < |items|
    requires forall i :: 0 <= i < |items| ==> TypedValue(f, items[i])
    ensures TypedValue(f, items[i])
    ensures PackedBytes(f, items[i..]) == NumBytes(f.kind, f.dataSize, items[i].n) + PackedBytes(f, items[i + 1..])
  {
    assert items[i..][1..] == items[i + 1..];
  }

  lemma DelimitedIs(s: seq<Byte>)
    ensures Delimited(s) == VarintBytes(|s|) + s
  {
  }

  /** A packed array is at most ten bytes an item, and four or eight for fixed widths. */
  lemma {:induction false} PackedSize(f: Field, items: seq<Value>)
    requires FieldOk(f) && IsNumeric(f.kind) && |items| < 0x1_0000
    requires forall i :: 0 <= i < |items| ==> TypedValue(f, items[i])
    ensures |PackedBytes(f, items)| <= 10 * |items|
    ensures f.kind.Fixed32? ==> |PackedBytes(f, items)| == 4 * |items|
    ensures f.kind.Fixed64? ==> |PackedBytes(f, items)| == 8 * |items|
  {
    hide VarintBytes, ZigZag;
    if items == [] {
    } else {
      assert TypedValue(f, items[0]);
      var n := items[0].n;
      if f.kind.Varint? {
        VarintBytesLength64(AsU64(n));
      } else if f.kind.SVarint? {
        VarintBytesLength64(ZigZag(n));
      } else if !f.kind.Fixed32? && !f.kind.Fixed64? {
        VarintBytesLength64(n);
      }
      PackedSize(f, items[1..]);
    }
  }

  /** The bits of the high half join the last group of the low half. */
  lemma PendingJoin(byte: nat, high: U32)
    requires byte < 0x10
    ensures Pending(byte, 0, high, 4) == (byte + high % 8 * 0x10) + 0x80 * (high / 8)
    ensures byte + high % 8 * 0x10 < 0x80 && high / 8 < 0x2000_0000
  {
  }

  lemma LastGroup(done: seq<Byte>, byte: nat)
    requires byte < 0x80
    ensures done + VarintBytes(byte) == done + [byte]
  {
  }

  /** One round of the first loop. */
  lemma EmitStep(byte: nat, low: nat, high: nat, i: nat)
    requires i < 4 && byte < 0x80 && low < LowLimit(i) && (low > 0 || high > 0)
    ensures VarintBytes(Pending(byte, low, high, i)) ==
              [0x80 + byte] + VarintBytes(Pending(low % 0x80, low / 0x80, high, i + 1))
    ensures low / 0x80 < LowLimit(i + 1) && (i == 3 ==> low % 0x80 < 0x10)
  {
    EmitLow(byte, low, high, HighWeight(i));
    assert HighWeight(i) / 0x80 == HighWeight(i + 1);
  }

  lemma PendingStart(low: U32, high: U32)
    ensures Pending(low % 0x80, low / 0x80, high, 0) == low + high * TWO_32 && low / 0x80 < LowLimit(0)
  {
  }

  /** The first loop: four groups of the low half, fewer if nothing is left. */
  method FillLow(low0: U32, high: U32, buffer: array<Byte>, ghost whole: seq<Byte>)
    returns (i: nat, byte: nat, low: nat)
    requires buffer.Length == 10 && whole == VarintBytes(low0 + high * TWO_32)
    modifies buffer
    ensures i <= 4 && byte < (if i == 4 then 0x10 else 0x80) && low < LowLimit(i)
    ensures i == 4 || (low == 0 && high == 0)
    ensures whole == buffer[..i] + VarintBytes(Pending(byte, low, high, i))
  {
    hide VarintBytes, Pending, LowLimit;
    PendingStart(low0, high);
    i, byte, low := 0, low0 % 0x80, low0 / 0x80;
    while i < 4 && (low != 0 || high != 0)
      invariant i <= 4 && byte < (if i == 4 then 0x10 else 0x80) && low < LowLimit(i)
      invariant whole == buffer[..i] + VarintBytes(Pending(byte, low, high, i))
    {
      EmitStep(byte, low, high, i);
      ghost var rest := VarintBytes(Pending(low % 0x80, low / 0x80, high, i + 1));
      assert buffer[..i] + ([0x80 + byte] + rest) == buffer[..i] + [0x80 + byte] + rest;
      buffer[i] := byte + 0x80;
      assert buffer[..i + 1] == buffer[..i] + [0x80 + byte];
      i := i + 1;
      byte := low % 0x80;
      low := low / 0x80;
    }
  }

  lemma LastLow(low: nat, i: nat)
    requires i == 4 && low < LowLimit(i)
    ensures low == 0
  {
  }

  lemma PendingLast(byte: nat, low: nat, high: nat, i: nat)
    requires high == 0 && low < LowLimit(i) && (i >= 4 || low == 0)
    ensures Pending(byte, low, high, i) == byte
  {
  }

  /** The second half of the loop, once only high groups are left. */
  method FillHigh(byte0: nat, high0: nat, i0: nat, buffer: array<Byte>, ghost whole: seq<Byte>)
    returns (i: nat, byte: nat)
    requires buffer.Length == 10 && i0 == 4 && byte0 < 0x80 && high0 < 0x2000_0000
    requires whole == buffer[..i0] + VarintBytes(byte0 + 0x80 * high0)
    modifies buffer
    ensures i <= 9 && byte < 0x80 && whole == buffer[..i] + VarintBytes(byte)
  {
    hide VarintBytes;
    i, byte := i0, byte0;
    var high: nat := high0;
    while high != 0
      invariant 4 <= i <= 9 && byte < 0x80 && high < HighLimit(i)
      invariant whole == buffer[..i] + VarintBytes(byte + 0x80 * high)
    {
      EmitHigh(byte, high);
      buffer[i] := byte + 0x80;
      i := i + 1;
      byte := high % 0x80;
      high := high / 0x80;
    }
  }

  /** The groups of the two halves of a 64-bit value, without 64-bit shifts. */
  method FillVarint(low: U32, high: U32, buffer: array<Byte>) returns (n: nat)
    requires buffer.Length == 10
    modifies buffer
    ensures n <= 10 && buffer[..n] == VarintBytes(low + high * TWO_32)
  {
    hide VarintBytes, Pending, LowLimit;
    ghost var whole := VarintBytes(low + high * TWO_32);
    var i, byte, rest := FillLow(low, high, buffer, whole);
    if high != 0 {
      LastLow(rest, i);
      PendingJoin(byte, high);
      i, byte := FillHigh(byte + high % 8 * 0x10, high / 8, i, buffer, whole);
    } else {
      PendingLast(byte, rest, high, i);
    }
    LastGroup(buffer[..i], byte);
    buffer[i] := byte;
    n := i + 1;
    assert buffer[..n] == buffer[..i] + [byte];
  }

  lemma OneGroup(byte: nat)
    requires byte < 0x80
    ensures VarintBytes(byte) == [byte]
  {
  }

  // ----- The stream

  class OStream {
    const buf: array<Byte>
    const limits: Limits
    var state: nat
    var bytesWritten: nat

    ghost function Snap(): Snapshot
      reads this, buf
    {
      Snapshot(buf[..], state, bytesWritten)
    }

    ghost predicate Valid()
      reads this, buf
    {
      limits.Admits(Snap())
    }

    /** A stream over part of a buffer: pb_ostream_from_buffer at 0, a submessage's stream further on. */
    constructor (memory: array<Byte>, start: nat, maxSize: nat)
      requires start + maxSize <= memory.Length
      ensures Valid() && buf == memory && limits == Limits(false, maxSize)
      ensures state == start && bytesWritten == 0
    {
      buf, limits, state, bytesWritten := memory, Limits(false, maxSize), start, 0;
    }

    /** PB_OSTREAM_SIZING: no callback, so nothing is stored. */
    constructor Sizing(unused: array<Byte>)
      ensures Valid() && buf == unused && limits.sizing && state == 0 && bytesWritten == 0
    {
      buf, limits, state, bytesWritten := unused, Limits(true, 0), 0, 0;
    }

    /** pb_write */
    method Write(data: seq<Byte>) returns (ok: bool)
      requires Valid()
      modifies this, buf
      ensures limits.Writes(old(Snap()), Snap(), Some(data), ok)
    {
      if |data| > 0 && !limits.sizing {
        if bytesWritten + |data| > limits.maxSize {
          return false;
        }
        forall i | 0 <= i < |data| {
          buf[state + i] := data[i];
        }
        state := state + |data|;
      }
      bytesWritten := bytesWritten + |data|;
      AfterConfined(limits, old(Snap()), data);
      assert !limits.sizing ==> buf[..] == old(buf[..])[..old(state)] + data + old(buf[..])[old(state) + |data|..];
      return true;
    }

    /** pb_write(stream, NULL, count) on a sizing stream. */
    method Count(count: nat, ghost data: seq<Byte>) returns (ok: bool)
      requires Valid() && limits.sizing && count == |data|
      modifies `bytesWritten
      ensures limits.Writes(old(Snap()), Snap(), Some(data), ok)
    {
      bytesWritten := bytesWritten + count;
      return true;
    }

    /** pb_encode_varint_32 */
    method EncodeVarint32(low: U32, high: U32) returns (ok: bool)
      requires Valid()
      modifies this, buf
      ensures limits.Writes(old(Snap()), Snap(), Some(VarintBytes(low + high * TWO_32)), ok)
    {
      var buffer := new Byte[10];
      var n := FillVarint(low, high, buffer);
      ok := Write(buffer[..n]);
    }

    /** pb_encode_varint */
    method EncodeVarint(value: U64) returns (ok: bool)
      requires Valid()
      modifies this, buf
      ensures limits.Writes(old(Snap()), Snap(), Some(VarintBytes(value)), ok)
    {
      if value <= 0x7F {
        OneGroup(value);
        ok := Write([value]);
      } else {
        assert Low32(value) + High32(value) * TWO_32 == value;
        ok := EncodeVarint32(Low32(value), High32(value));
      }
    }

    /** pb_enc_bool, pb_enc_varint and pb_enc_fixed */
    method EncodeNumber(ltype: nat, dataSize: nat, ghost k: Kind, n: int) returns (ok: bool)
      requires Valid() && ltype == LTypeOf(k) && IsNumeric(k) && SizeFits(k, dataSize) && InRange(k, dataSize, n)
      modifies this, buf
      ensures limits.Writes(old(Snap()), Snap(), Some(NumBytes(k, dataSize, n)), ok)
    {
      if ltype == LTYPE_FIXED32 {
        WireOctets.FourOctets(n);
        ok := Write([n % 0x100, n / 0x100 % 0x100, n / 0x1_0000 % 0x100, n / 0x100_0000 % 0x100]);
      } else if ltype == LTYPE_FIXED64 {
        WireOctets.EightOctets(n);
        var high := n / TWO_32;
        ok := Write([n % 0x100, n / 0x100 % 0x100, n / 0x1_0000 % 0x100, n / 0x100_0000 % 0x100,
                     high % 0x100, high / 0x100 % 0x100, high / 0x1_0000 % 0x100, high / 0x100_0000 % 0x100]);
      } else if ltype == LTYPE_SVARINT {
        ok := EncodeVarint(ZigZag(n));
      } else if ltype == LTYPE_VARINT {
        ok := EncodeVarint(AsU64(n));
      } else {
        ok := EncodeVarint(n);
      }
    }

    /** pb_encode_tag */
    method EncodeTag(wireType: nat, tag: U32) returns (ok: bool)
      requires Valid() && wireType < 8
      modifies this, buf
      ensures limits.Writes(old(Snap()), Snap(), Some(TagBytes(tag, wireType)), ok)
    {
      ok := EncodeVarint(tag * 8 + wireType);
    }

    /** pb_encode_string */
    method EncodeString(data: seq<Byte>) returns (ok: bool)
      requires Valid() && |data| < TWO_32
      modifies this, buf
      ensures limits.Writes(old(Snap()), Snap(), Some(Delimited(data)), ok)
    {
      ghost var prefix := VarintBytes(|data|);
      ok := EncodeVarint(|data|);
      if !ok {
        FailsWhole(limits, old(Snap()), Snap(), Some(prefix), Some(Delimited(data)));
        return;
      }
      ok := Write(data);
      WritesTwice(limits, old(Snap()), prefix, Snap(), Some(data), ok);
    }

    /** pb_encode_submessage: a sizing pass, the length, and the writing pass limited to that length. */
    method EncodeSubmessage(d: Descriptor, ghost fs: seq<Field>, m: seq<Slot>) returns (ok: bool)
      requires Valid() && Describes(d, fs) && FieldsOk(fs) && TypedMsg(fs, m) && SizesFit(fs, m)
      requires EncodeMsg(fs, m).Some? ==> |EncodeMsg(fs, m).value| < TWO_32
      modifies this, buf
      ensures limits.Writes(old(Snap()), Snap(), SubBytes(EncodeMsg(fs, m)), ok)
      decreases fs, 6
    {
      hide EncodeMsg, SizesFit, TypedMsg, FieldsOk, Describes, Delimited, VarintBytes, Limits.After, Limits.Admits,
           Limits.HasRoom, Limits.Confined;
      ghost var s0 := Snap();
      var sizer := new OStream.Sizing(buf);
      ok := sizer.Encode(d, fs, m);
      SizerKeeps(sizer.limits, Snapshot(s0.mem, 0, 0), sizer.Snap());
      assert Snap() == s0;
      if EncodeMsg(fs, m).Some? {
        SizerCounts(sizer.limits, Snapshot(s0.mem, 0, 0), EncodeMsg(fs, m).value);
      }
      if !ok {
        NothingConfined(limits, s0);
        return;
      }
      ghost var sub := EncodeMsg(fs, m).value;
      var size := sizer.bytesWritten;
      ghost var prefix := VarintBytes(size);
      assert Delimited(sub) == prefix + sub by { DelimitedIs(sub); }
      ok := EncodeVarint(size);
      if !ok {
        FailsWhole(limits, s0, Snap(), Some(prefix), Some(Delimited(sub)));
        return;
      }
      if limits.sizing {
        ok := Count(size, sub);
      } else if bytesWritten + size > limits.maxSize {
        NothingConfined(limits, Snap());
        NoRoom(limits, Snap(), |sub|);
        ok := false;
      } else {
        ghost var mid := Snap();
        SubAfter(limits, mid, sub);
        var substream := new OStream(buf, state, size);
        var status := substream.Encode(d, fs, m);
        bytesWritten := bytesWritten + substream.bytesWritten;
        state := substream.state;
        ok := status && substream.bytesWritten == size;
        AfterConfined(limits, mid, sub);
      }
      WritesTwice(limits, s0, prefix, Snap(), Some(sub), ok);
    }

    /** encode_basic_field: the tag, then the item by its type. */
    method EncodeBasicField(shown: FieldInfo.Loaded, sub: Descriptor, ghost f: Field, v: Value) returns (ok: bool)
      requires Valid() && FieldOk(f) && TypedValue(f, v) && SizesFitValue(f, v) && Shows(shown, f)
      requires f.kind.Submessage? ==> Describes(sub, f.kind.fields)
      modifies this, buf
      ensures limits.Writes(old(Snap()), Snap(), EncodeRecord(f, v), ok)
      decreases f, 1
    {
      hide EncodeMsg, SizesFit, TypedMsg, FieldsOk, Describes, Delimited, VarintBytes, NumBytes, TagBytes, LimitOf,
           MinOf, Limits.After, Limits.Admits, Limits.HasRoom, Limits.Confined;
      ghost var s0 := Snap();
      var ltype := FieldInfo.LType(shown.typ);
      var wireType := WireTypeOf(ltype);
      assert wireType == WireType(f.kind);
      ghost var tag := TagBytes(f.tag, wireType);
      ok := EncodeTag(wireType, shown.tag);
      if !ok {
        FailsWhole(limits, s0, Snap(), Some(tag), EncodeRecord(f, v));
        return;
      }
      ghost var mid := Snap();
      if ltype == LTYPE_BYTES {
        if |v.data| > shown.dataSize - 2 {
          NothingConfined(limits, mid);
          ok := false;
        } else {
          ok := EncodeString(v.data);
        }
      } else if ltype == LTYPE_STRING {
        var terminated, size := ScanString(v.data, shown.dataSize);
        if !terminated {
          NothingConfined(limits, mid);
          ok := false;
        } else {
          ok := EncodeString(v.data[..size]);
        }
      } else if ltype == LTYPE_SUBMESSAGE {
        ok := EncodeSubmessage(sub, f.kind.fields, v.slots);
      } else {
        ok := EncodeNumber(ltype, shown.dataSize, f.kind, v.n);
      }
      assert limits.Writes(mid, Snap(), EncodeValue(f, v), ok);
      WritesTwice(limits, s0, tag, Snap(), EncodeValue(f, v), ok);
    }

    /** encode_array */
    method EncodeArrayField(shown: FieldInfo.Loaded, sub: Descriptor, ghost f: Field, items: seq<Value>)
      returns (ok: bool)
      requires Valid() && FieldOk(f) && f.rule.Repeated? && Shows(shown, f)
      requires f.kind.Submessage? ==> Describes(sub, f.kind.fields)
      requires forall i :: 0 <= i < |items| ==> TypedValue(f, items[i]) && SizesFitValue(f, items[i])
      modifies this, buf
      ensures limits.Writes(old(Snap()), Snap(), EncodeArray(f, items), ok)
      decreases f, 3
    {
      NothingConfined(limits, Snap());
      AfterNothing(limits, Snap());
      hide Limits.After, Limits.Admits, Limits.HasRoom, Limits.Confined;
      if |items| == 0 {
        return true;
      }
      if |items| > shown.arraySize {
        return false;
      }
      if FieldInfo.LType(shown.typ) <= LTYPE_LAST_PACKABLE {
        ok := EncodePacked(shown, f, items);
      } else {
        ok := EncodeItems(shown, sub, f, items);
      }
    }

    /** The packed branch of encode_array: tag, total size from arithmetic or from a sizing pass, items. */
    method EncodePacked(shown: FieldInfo.Loaded, ghost f: Field, items: seq<Value>) returns (ok: bool)
      requires Valid() && FieldOk(f) && IsNumeric(f.kind) && 0 < |items| <= f.arraySize && Shows(shown, f)
      requires forall i :: 0 <= i < |items| ==> TypedValue(f, items[i])
      modifies this, buf
      ensures limits.Writes(old(Snap()), Snap(), Some(TagBytes(f.tag, WT_STRING) + Delimited(PackedBytes(f, items))),
          ok)
      decreases f, 2
    {
      hide VarintBytes, NumBytes, TagBytes, LimitOf, MinOf, PackedBytes, Delimited, Limits.After, Limits.Admits,
           Limits.HasRoom, Limits.Confined;
      ghost var s0 := Snap();
      ghost var tag, packed := TagBytes(f.tag, WT_STRING), PackedBytes(f, items);
      ghost var whole := Some(tag + Delimited(packed));
      PackedSize(f, items);
      ok := EncodeTag(WT_STRING, shown.tag);
      if !ok {
        FailsWhole(limits, s0, Snap(), Some(tag), whole);
        return;
      }
      var size: nat;
      var ltype := FieldInfo.LType(shown.typ);
      if ltype == LTYPE_FIXED32 {
        size := 4 * |items|;
      } else if ltype == LTYPE_FIXED64 {
        size := 8 * |items|;
      } else {
        var sizer := new OStream.Sizing(buf);
        ghost var mid := Snap();
        var _ := sizer.EncodeNumbers(shown, f, items);
        size := sizer.bytesWritten;
        SizerKeeps(sizer.limits, Snapshot(mid.mem, 0, 0), sizer.Snap());
        SizerCounts(sizer.limits, Snapshot(mid.mem, 0, 0), packed);
        assert Snap() == mid;
      }
      assert size == |packed|;
      ghost var prefix := VarintBytes(size);
      assert tag + Delimited(packed) == tag + prefix + packed by {
        DelimitedIs(packed);
        assert tag + (prefix + packed) == tag + prefix + packed;
      }
      ok := EncodeVarint(size);
      WritesTwice(limits, s0, tag, Snap(), Some(prefix), ok);
      if !ok {
        FailsWhole(limits, s0, Snap(), Some(tag + prefix), whole);
        return;
      }
      if limits.sizing {
        ok := Count(size, packed);
      } else {
        ok := EncodeNumbers(shown, f, items);
      }
      WritesTwice(limits, s0, tag + prefix, Snap(), Some(packed), ok);
    }

    /** The items of a packed array. */
    method EncodeNumbers(shown: FieldInfo.Loaded, ghost f: Field, items: seq<Value>) returns (ok: bool)
      requires Valid() && FieldOk(f) && IsNumeric(f.kind) && Shows(shown, f)
      requires forall i :: 0 <= i < |items| ==> TypedValue(f, items[i])
      modifies this, buf
      ensures limits.Writes(old(Snap()), Snap(), Some(PackedBytes(f, items)), ok)
    {
      ghost var s0 := Snap();
      ghost var written, whole := [], Some(PackedBytes(f, items));
      ReachedStart(limits, s0, whole);
      assert items[0..] == items && items[|items|..] == [];
      var ltype := FieldInfo.LType(shown.typ);
      assert ltype == LTypeOf(f.kind) && shown.dataSize == f.dataSize;
      hide *;
      for i := 0 to |items|
        invariant limits.Reached(s0, Snap(), written)
        invariant whole == Cat(written, Some(PackedBytes(f, items[i..])))
      {
        ghost var b := NumBytes(f.kind, f.dataSize, items[i].n);
        PackedHead(f, items, i);
        ghost var mid := Snap();
        ok := EncodeNumber(ltype, shown.dataSize, f.kind, items[i].n);
        WritesStep(limits, s0, written, mid, Some(b), Some(PackedBytes(f, items[i + 1..])), whole, Snap(), ok);
        if !ok {
          return;
        }
        written := written + b;
      }
      ReachedEnd(limits, s0, written, Snap());
      ok := true;
    }

    /** The branch of encode_array for items that are not packed. */
    method EncodeItems(shown: FieldInfo.Loaded, sub: Descriptor, ghost f: Field, items: seq<Value>) returns (ok: bool)
      requires Valid() && FieldOk(f) && Shows(shown, f) && (f.kind.Submessage? ==> Describes(sub, f.kind.fields))
      requires forall i :: 0 <= i < |items| ==> TypedValue(f, items[i]) && SizesFitValue(f, items[i])
      modifies this, buf
      ensures limits.Writes(old(Snap()), Snap(), EncodeRecords(f, items), ok)
      decreases f, 2
    {
      ghost var s0 := Snap();
      ghost var written, whole := [], EncodeRecords(f, items);
      ReachedStart(limits, s0, whole);
      assert items[0..] == items;
      assert EncodeRecords(f, items[|items|..]) == Some([]);
      hide *;
      for i := 0 to |items|
        invariant limits.Reached(s0, Snap(), written)
        invariant whole == Cat(written, EncodeRecords(f, items[i..]))
      {
        assert TypedValue(f, items[i]) && SizesFitValue(f, items[i]);
        RecordsHead(f, items, i);
        ghost var mid := Snap();
        ReachedValid(limits, s0, mid, written);
        ok := EncodeBasicField(shown, sub, f, items[i]);
        WritesStep(limits, s0, written, mid, EncodeRecord(f, items[i]), EncodeRecords(f, items[i + 1..]), whole,
            Snap(), ok);
        if !ok {
          return;
        }
        written := written + EncodeRecord(f, items[i]).value;
      }
      ReachedEnd(limits, s0, written, Snap());
      ok := true;
    }

    /** encode_field */
    method EncodeOneField(shown: FieldInfo.Loaded, sub: Descriptor, ghost f: Field, s: Slot) returns (ok: bool)
      requires Valid() && FieldOk(f) && TypedSlot(f, s) && SizesFitSlot(f, s) && Shows(shown, f)
      requires f.kind.Submessage? ==> Describes(sub, f.kind.fields)
      modifies this, buf
      ensures limits.Writes(old(Snap()), Snap(), EncodeField(f, s), ok)
      decreases f, 4
    {
      hide Describes, EncodeRecord, EncodeArray, TypedValue, SizesFitValue, IsDefaultValue;
      NothingConfined(limits, Snap());
      AfterNothing(limits, Snap());
      hide Limits.After, Limits.Admits, Limits.HasRoom, Limits.Confined;
      var htype := FieldInfo.HType(shown.typ);
      if htype == HTYPE_OPTIONAL {
        if shown.sizeOffset != 0 {
          if !s.has {
            return true;
          }
        } else {
          var isDefault := CheckDefault(shown, sub, f, s);
          if isDefault {
            return true;
          }
        }
      }
      if htype == HTYPE_REPEATED {
        ok := EncodeArrayField(shown, sub, f, s.items);
      } else {
        ok := EncodeBasicField(shown, sub, f, s.v);
      }
    }

    /** pb_encode: the fields as the iterator walks them; on a sizing stream this is pb_get_encoded_size. */
    method Encode(d: Descriptor, ghost fs: seq<Field>, m: seq<Slot>) returns (ok: bool)
      requires Valid() && Describes(d, fs) && FieldsOk(fs) && TypedMsg(fs, m) && SizesFit(fs, m)
      modifies this, buf
      ensures limits.Writes(old(Snap()), Snap(), EncodeMsg(fs, m), ok)
      decreases fs, 5
    {
      hide FieldInfo.WellFormed, FieldInfo.Words, FieldInfo.LargestTag, FieldInfo.FieldIter.Valid, Describes;
      DescribedCount(d, fs);
      ghost var s0 := Snap();
      ghost var written, whole := [], EncodeMsg(fs, m);
      ReachedStart(limits, s0, whole);
      assert fs[0..] == fs && m[0..] == m && |m| == |fs|;
      var iter := new FieldInfo.FieldIter(d.infos, FieldInfo.Words(d.infos), |d.infos|, FieldInfo.LargestTag(d.infos));
      var more := |d.infos| > 0;
      ghost var k: nat := 0;
      hide *;
      while more
        invariant iter.Valid() && iter.fields == d.infos && fresh(iter) && k <= |fs|
        invariant if more then iter.index == k < |fs| else k == |fs|
        invariant limits.Reached(s0, Snap(), written)
        invariant FieldsOk(fs[k..]) && TypedMsg(fs[k..], m[k..]) && SizesFit(fs[k..], m[k..])
        invariant whole == Cat(written, EncodeMsg(fs[k..], m[k..]))
        decreases |fs| - k
      {
        ShownByIterator(iter, d, fs, k);
        MsgHead(fs, m, k);
        ghost var mid := Snap();
        ReachedValid(limits, s0, mid, written);
        var sub := if iter.submessageIndex < |d.subs| then d.subs[iter.submessageIndex] else d;
        ok := EncodeOneField(iter.current, sub, fs[k], m[iter.index]);
        WritesStep(limits, s0, written, mid, EncodeField(fs[k], m[k]), EncodeMsg(fs[k + 1..], m[k + 1..]), whole,
            Snap(), ok);
        if !ok {
          return;
        }
        written := written + EncodeField(fs[k], m[k]).value;
        IterNotEmpty(iter);
        more := iter.Next();
        k := k + 1;
      }
      MsgEnd(fs, m);
      ReachedEnd(limits, s0, written, Snap());
      ok := true;
    }

    /** pb_encode_ex */
    method EncodeExtended(d: Descriptor, ghost fs: seq<Field>, m: seq<Slot>, delimited: bool, nullTerminated: bool)
      returns (ok: bool)
      requires Valid() && Describes(d, fs) && FieldsOk(fs) && TypedMsg(fs, m) && SizesFit(fs, m)
      requires EncodeMsg(fs, m).Some? ==> |EncodeMsg(fs, m).value| < TWO_32
      modifies this, buf
      ensures limits.Writes(old(Snap()), Snap(), EncodeEx(fs, m, delimited, nullTerminated), ok)
    {
      hide EncodeMsg, SizesFit, TypedMsg, FieldsOk, Describes, Delimited, Limits.After, Limits.Admits, Limits.HasRoom,
           Limits.Confined;
      if delimited {
        ok := EncodeSubmessage(d, fs, m);
      } else if nullTerminated {
        ghost var s0, b := Snap(), EncodeMsg(fs, m);
        ok := Encode(d, fs, m);
        if !ok {
          FailsWhole(limits, s0, Snap(), b, EncodeEx(fs, m, false, true));
          return;
        }
        ok := Write([0]);
        WritesTwice(limits, s0, b.value, Snap(), Some([0]), ok);
      } else {
        ok := Encode(d, fs, m);
      }
    }
  }

  /** pb_get_encoded_size: the sizing pass gives the length of what a writing pass writes, or reports the same error. */
  method GetEncodedSize(d: Descriptor, ghost fs: seq<Field>, m: seq<Slot>) returns (ok: bool, size: nat)
    requires Describes(d, fs) && FieldsOk(fs) && TypedMsg(fs, m) && SizesFit(fs, m)
    ensures ok <==> EncodeMsg(fs, m).Some?
    ensures ok ==> size == |EncodeMsg(fs, m).value|
  {
    hide EncodeMsg, SizesFit, TypedMsg, FieldsOk, Describes;
    var nothing := new Byte[0];
    var stream := new OStream.Sizing(nothing);
    ok := stream.Encode(d, fs, m);
    size := stream.bytesWritten;
  }
}
