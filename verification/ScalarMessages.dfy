/**
 * Messages of singular numbers, as all the kart's are: which occurrence of a field counts, and what
 * decoding one message over another gives, for any bytes that decode.
 */
module ScalarMessages {
  import opened Bytes
  import opened Varint
  import opened Message
  import opened Wire
  import opened Merge
  import opened SchemaEvolution
  import opened CodecTheorems
  import opened Concatenation
  import opened RequiredFields

  predicate ScalarField(f: Field) { f.rule.Singular? && IsNumeric(f.kind) }

  predicate Scalar(fs: seq<Field>) {
    FieldsOk(fs) && forall i :: 0 <= i < |fs| ==> ScalarField(fs[i])
  }

  // ----- The last occurrence

  function NumberOf(f: Field, s: seq<Byte>): Option<int>
    requires IsNumeric(f.kind)
  {
    match DecodeNum(f.kind, f.dataSize, s)
    case Fail => None
    case Ok(n, _) => Some(n)
  }

  /** The number in the last record of f's tag on the wire, if there is one. */
  function LastNumber(f: Field, s: seq<Byte>): Option<int>
    requires IsNumeric(f.kind)
    decreases |s|
  {
    match DecodeVarint32(s)
    case Fail => None
    case Ok(key, rest) =>
      if key / 8 == 0 then None
      else
        match SkipField(key % 8, rest)
        case Fail => None
        case Ok(_, rest') =>
          var later := LastNumber(f, rest');
          if later.Some? then later else if key / 8 == f.tag then NumberOf(f, rest) else None
  }

  /** A slot after the bytes s: the last number they give it, or what it held. */
  function After(f: Field, slot: Slot, s: seq<Byte>): Slot
    requires IsNumeric(f.kind)
  {
    match LastNumber(f, s)
    case None => slot
    case Some(n) => One(Num(n))
  }

  lemma ScalarAt(fs: seq<Field>, i: nat)
    requires Scalar(fs) && i < |fs|
    ensures FieldOk(fs[i]) && fs[i].rule.Singular? && IsNumeric(fs[i].kind)
  {
    FieldsOkAt(fs, i);
    assert ScalarField(fs[i]);
  }

  lemma ScalarFieldReads(f: Field, slot: Slot, wt: nat, s: seq<Byte>)
    requires FieldOk(f) && f.rule.Singular? && IsNumeric(f.kind) && TypedSlot(f, slot)
    ensures var r, n := DecodeField(f, slot, wt, s), DecodeNum(f.kind, f.dataSize, s);
            && r.Ok? == ((wt == WireType(f.kind) || wt == WT_PACKED) && n.Ok?)
            && (r.Ok? ==> r == Ok(One(Num(n.value)), n.rest))
  {
    hide DecodeNum;
    assert slot.One?;
    var v := DecodeValue(f, slot.v, wt, s);
  }

  /** One record gives its own field the number it carries, whatever was there, and no other field anything. */
  lemma TakeScalar(fs: seq<Field>, p: Progress, tag: U32, wt: nat, s: seq<Byte>)
    requires Scalar(fs) && TypedMsg(fs, p.m)
    ensures var r := TakeField(fs, p, tag, wt, s);
            IndexOf(fs, tag).None? ==> r.Ok? == SkipField(wt, s).Ok? && (r.Ok? ==> r == Ok(p, SkipField(wt, s).rest))
    ensures var r := TakeField(fs, p, tag, wt, s);
            IndexOf(fs, tag).Some? ==>
              var i := IndexOf(fs, tag).value;
              && IsNumeric(fs[i].kind)
              && var n := DecodeNum(fs[i].kind, fs[i].dataSize, s);
                 && r.Ok? == ((wt == WireType(fs[i].kind) || wt == WT_PACKED) && n.Ok?)
                 && (r.Ok? ==> |p.m| == |fs| && r == Ok(Progress(p.m[i := One(Num(n.value))], p.seen), n.rest))
  {
    hide SkipField, DecodeNum;
    if IndexOf(fs, tag).Some? {
      var i := IndexOf(fs, tag).value;
      ScalarAt(fs, i);
      assert |p.m| == |fs|;
      TypedAt(fs, p.m, i);
      ScalarFieldReads(fs[i], p.m[i], wt, s);
      hide DecodeField;
    }
  }

  lemma LastStep(f: Field, s: seq<Byte>)
    requires IsNumeric(f.kind) && DecodeVarint32(s).Ok? && DecodeVarint32(s).value / 8 != 0
    requires SkipField(DecodeVarint32(s).value % 8, DecodeVarint32(s).rest).Ok?
    ensures var key, rest := DecodeVarint32(s).value, DecodeVarint32(s).rest;
            var later := LastNumber(f, SkipField(key % 8, rest).rest);
            LastNumber(f, s) == if later.Some? then later else if key / 8 == f.tag then NumberOf(f, rest) else None
  {
    hide DecodeVarint32, SkipField, NumberOf;
  }

  /** What the first record and the rest of the bytes make of field i, together. */
  lemma AfterRecord(fs: seq<Field>, p: Progress, s: seq<Byte>, i: nat)
    requires Scalar(fs) && TypedMsg(fs, p.m) && i < |fs| && IsNumeric(fs[i].kind)
    requires DecodeVarint32(s).Ok? && DecodeVarint32(s).value / 8 != 0
    requires var key := DecodeVarint32(s).value; TakeField(fs, p, key / 8, key % 8, DecodeVarint32(s).rest).Ok?
    ensures var key := DecodeVarint32(s).value;
            var r := TakeField(fs, p, key / 8, key % 8, DecodeVarint32(s).rest);
            |p.m| == |fs| == |r.value.m| && After(fs[i], r.value.m[i], r.rest) == After(fs[i], p.m[i], s)
  {
    var key, rest := DecodeVarint32(s).value, DecodeVarint32(s).rest;
    IndexOfUnique(fs, i);
    TakeScalar(fs, p, key / 8, key % 8, rest);
    TakeSkips(fs, p, key / 8, key % 8, rest);
    hide TakeField, SkipField, DecodeVarint32, DecodeNum, FieldsOk, ScalarField;
    LastStep(fs[i], s);
  }

  /**
   * Last one wins: after decoding any bytes that decode, each field holds the number of the last record
   * with its tag, and what it held before if there is none.
   */
  lemma {:induction false} LastOneWins(fs: seq<Field>, p: Progress, s: seq<Byte>, nt: bool)
    requires Scalar(fs) && TypedMsg(fs, p.m) && DecodeFields(fs, p, s, nt).Ok?
    ensures var q := DecodeFields(fs, p, s, nt).value;
            && q.seen == p.seen && |q.m| == |p.m| == |fs|
            && forall i :: 0 <= i < |fs| ==> IsNumeric(fs[i].kind) && q.m[i] == After(fs[i], p.m[i], s)
    decreases |s|
  {
    forall i | 0 <= i < |fs|
      ensures IsNumeric(fs[i].kind)
    {
      ScalarAt(fs, i);
    }
    if s == [] {
      NoTags();
    } else {
      var key, rest := DecodeVarint32(s).value, DecodeVarint32(s).rest;
      if key / 8 == 0 {
      } else {
        var r := TakeField(fs, p, key / 8, key % 8, rest);
        hide TakeField, DecodeVarint32, After, FieldsOk, TypedMsg, ScalarField;
        TakeScalar(fs, p, key / 8, key % 8, rest);
        LastOneWins(fs, r.value, r.rest, nt);
        forall i | 0 <= i < |fs|
          ensures After(fs[i], r.value.m[i], r.rest) == After(fs[i], p.m[i], s)
        {
          AfterRecord(fs, p, s, i);
        }
      }
    }
  }

  /** Whether bytes decode, and how far, does not depend on what they are decoded over. */
  lemma {:induction false} DecodesOverAnything(fs: seq<Field>, p: Progress, q: Progress, s: seq<Byte>, nt: bool)
    requires Scalar(fs) && TypedMsg(fs, p.m) && TypedMsg(fs, q.m)
    ensures var a, b := DecodeFields(fs, p, s, nt), DecodeFields(fs, q, s, nt);
            a.Ok? == b.Ok? && (a.Ok? ==> a.rest == b.rest)
    decreases |s|
  {
    if s == [] {
    } else if DecodeVarint32(s).Ok? && DecodeVarint32(s).value / 8 != 0 {
      var key, rest := DecodeVarint32(s).value, DecodeVarint32(s).rest;
      hide TakeField, DecodeVarint32, SkipField, DecodeNum, FieldsOk, TypedMsg, ScalarField;
      TakeScalar(fs, p, key / 8, key % 8, rest);
      TakeScalar(fs, q, key / 8, key % 8, rest);
      var a, b := TakeField(fs, p, key / 8, key % 8, rest), TakeField(fs, q, key / 8, key % 8, rest);
      if a.Ok? {
        DecodesOverAnything(fs, a.value, b.value, a.rest, nt);
      }
    }
  }

  /** No field is required, so a scalar message decodes exactly when its fields parse. */
  lemma ScalarDecodes(fs: seq<Field>, m: seq<Slot>, s: seq<Byte>, nt: bool)
    requires Scalar(fs) && TypedMsg(fs, m)
    ensures var r := DecodeFields(fs, Progress(m, {}), s, nt);
            DecodeMsg(fs, m, s, nt).Ok? == r.Ok? && (r.Ok? ==> DecodeMsg(fs, m, s, nt) == Ok(r.value.m, r.rest))
  {
    forall i | 0 <= i < |fs|
      ensures !fs[i].rule.Required?
    {
      ScalarAt(fs, i);
    }
    hide DecodeFields;
  }

  /**
   * If a and b each decode, over whatever content, then a followed by b decodes over any content, as
   * decoding a and then b over the result: b's last number wins, then a's, then what was there.
   */
  lemma ConcatenatedScalars(fs: seq<Field>, m: seq<Slot>, a: seq<Byte>, b: seq<Byte>, m1: seq<Slot>, m2: seq<Slot>)
    requires Scalar(fs) && TypedMsg(fs, m) && TypedMsg(fs, m1) && TypedMsg(fs, m2)
    requires DecodeMsg(fs, m1, a, false).Ok? && DecodeMsg(fs, m2, b, false).Ok?
    ensures DecodeMsg(fs, m, a, false).Ok? && DecodeMsg(fs, m, a + b, false).Ok?
    ensures DecodeMsg(fs, m, a + b, false) == DecodeMsg(fs, DecodeMsg(fs, m, a, false).value, b, false)
    ensures var r := DecodeMsg(fs, m, a + b, false).value;
            |r| == |m| == |fs| && forall i :: 0 <= i < |fs| ==>
              IsNumeric(fs[i].kind) && r[i] == After(fs[i], After(fs[i], m[i], a), b)
  {
    ScalarDecodes(fs, m1, a, false);
    ScalarDecodes(fs, m, a, false);
    DecodesOverAnything(fs, Progress(m1, {}), Progress(m, {}), a, false);
    var first := DecodeFields(fs, Progress(m, {}), a, false).value;
    ScalarDecodes(fs, m2, b, false);
    ScalarDecodes(fs, first.m, b, false);
    DecodesOverAnything(fs, Progress(m2, {}), Progress(first.m, {}), b, false);
    ConcatenationMerges(fs, m, a, b);
    LastOneWins(fs, Progress(m, {}), a, false);
    LastOneWins(fs, Progress(first.m, {}), b, false);
    hide DecodeFields, DecodeMsg, FieldsOk, TypedMsg, ScalarField, After;
  }

  lemma OneByte(b: Byte, tail: seq<Byte>)
    requires b < 0x80
    ensures DecodeVarint32([b] + tail) == Ok(b, tail) && DecodeVarint([b] + tail) == Ok(b, tail)
    ensures SkipVarint([b] + tail) == Ok((), tail)
  {
    VarintRoundTrip(b, tail);
    assert VarintBytes(b) == [b] && ([b] + tail)[1..] == tail;
  }

  /** A zero on the wire counts: 08 00 clears the field with tag 1. */
  lemma ZeroRecordWins(f: Field)
    requires f.tag == 1 && f.kind == UVarint && f.dataSize == 4
    ensures LastNumber(f, [0x08, 0x00]) == Some(0) && After(f, One(Num(5)), [0x08, 0x00]) == One(Num(0))
  {
    var s: seq<Byte> := [0x08, 0x00];
    OneByte(0x08, [0x00]);
    OneByte(0x00, []);
    assert s == [0x08] + [0x00] && s[1..] == [0x00] && [0x00] + [] == s[1..];
    NoTags();
  }

  // ----- Messages this encoder emits

  /** The later message's numbers, and the earlier ones where the later message has zero. */
  function Overlay(m: seq<Slot>, n: seq<Slot>): (r: seq<Slot>)
    requires |m| == |n|
    ensures |r| == |m|
  {
    seq(|m|, i requires 0 <= i < |m| => if n[i] == One(Num(0)) then m[i] else n[i])
  }

  lemma ScalarFieldEncodes(f: Field, s: Slot)
    requires ScalarField(f) && FieldOk(f) && TypedSlot(f, s)
    ensures EncodeField(f, s).Some?
  {
    assert !f.kind.Bytes? && !f.kind.String? && !f.kind.Submessage?;
    assert EncodeValue(f, s.v).Some?;
  }

  lemma {:induction false} ScalarEncodes(fs: seq<Field>, n: seq<Slot>)
    requires Scalar(fs) && TypedMsg(fs, n)
    ensures EncodeMsg(fs, n).Some?
    decreases fs
  {
    if fs == [] {
    } else {
      assert Scalar(fs[1..]) by {
        forall i | 0 <= i < |fs[1..]|
          ensures ScalarField(fs[1..][i])
        {
          assert ScalarField(fs[i + 1]);
        }
      }
      assert ScalarField(fs[0]);
      ScalarFieldEncodes(fs[0], n[0]);
      hide EncodeField;
      ScalarEncodes(fs[1..], n[1..]);
    }
  }

  lemma OverlaySlot(f: Field, s: Slot, t: Slot)
    requires ScalarField(f) && FieldOk(f) && ReadsField(f, f) && TypedSlot(f, s) && TypedSlot(f, t)
    ensures StoreAll(f, s, f, Emitted(f, t)) == Some(if t == One(Num(0)) then s else t)
  {
    assert t.One? && t.v.Num? && s.One?;
    assert IsDefaultValue(f, t.v) <==> t.v.n == 0;
    if t.v.n != 0 {
      assert [t.v][1..] == [];
      assert MergeValue(f, s.v, f, t.v) == Some(t.v);
      assert Store(f, s, f, t.v) == Some(t);
    }
  }

  lemma MergedScalar(fs: seq<Field>, m: seq<Slot>, n: seq<Slot>, i: nat)
    requires Scalar(fs) && TypedMsg(fs, m) && TypedMsg(fs, n) && Reads(fs, fs) && i < |fs|
    ensures MergedSlot(fs, m, fs, n, i) == Some(Overlay(m, n)[i])
  {
    IndexOfUnique(fs, i);
    FieldsOkAt(fs, i);
    TypedAt(fs, m, i);
    TypedAt(fs, n, i);
    ReadsFieldSelf(fs[i]);
    assert ScalarField(fs[i]);
    OverlaySlot(fs[i], m[i], n[i]);
  }

  lemma OverlayMerges(fs: seq<Field>, m: seq<Slot>, n: seq<Slot>)
    requires Scalar(fs) && TypedMsg(fs, m) && TypedMsg(fs, n) && Reads(fs, fs)
    ensures MergeFields(fs, Progress(m, {}), fs, n).Some?
    ensures MergeFields(fs, Progress(m, {}), fs, n).value.m == Overlay(m, n)
  {
    hide Reads, MergeFields, MergedSlot, FieldsOk, ScalarField;
    assert |m| == |n| == |fs|;
    hide TypedMsg;
    forall i | 0 <= i < |fs|
      ensures MergedSlot(fs, m, fs, n, i) == Some(Overlay(m, n)[i])
    {
      MergedScalar(fs, m, n, i);
    }
    MergePointwise(fs, Progress(m, {}), fs, n);
  }

  /** Decoding an encoded scalar message over another one lays its numbers over the old ones. */
  lemma EncodedOverlays(fs: seq<Field>, m: seq<Slot>, n: seq<Slot>)
    requires Scalar(fs) && TypedMsg(fs, m) && TypedMsg(fs, n)
    requires EncodeMsg(fs, n).Some? && |EncodeMsg(fs, n).value| < TWO_32
    ensures DecodeMsg(fs, m, EncodeMsg(fs, n).value, false) == Ok(Overlay(m, n), [])
  {
    ReadsSelf(fs);
    OverlayMerges(fs, m, n);
    DecodeMerges(fs, m, fs, n, false);
  }

  /** Two encoded scalar messages in one buffer decode to the second laid over the first. */
  lemma EncodedTwice(fs: seq<Field>, m: seq<Slot>, n: seq<Slot>)
    requires Scalar(fs) && TypedMsg(fs, m) && TypedMsg(fs, n) && TypedMsg(fs, DefaultMsg(fs))
    requires EncodeMsg(fs, m).Some? && |EncodeMsg(fs, m).value| < TWO_32
    requires EncodeMsg(fs, n).Some? && |EncodeMsg(fs, n).value| < TWO_32
    ensures DecodeMsg(fs, DefaultMsg(fs), EncodeMsg(fs, m).value + EncodeMsg(fs, n).value, false) ==
              Ok(Overlay(m, n), [])
  {
    EncodedOverlays(fs, DefaultMsg(fs), m);
    forall i | 0 <= i < |fs|
      ensures Overlay(DefaultMsg(fs), m)[i] == m[i]
    {
      DefaultAt(fs, i);
      assert ScalarField(fs[i]);
      TypedAt(fs, m, i);
    }
    assert Overlay(DefaultMsg(fs), m) == m;
    EncodedOverlays(fs, m, n);
    ConcatenationMerges(fs, DefaultMsg(fs), EncodeMsg(fs, m).value, EncodeMsg(fs, n).value);
  }
}
