/** Base-128 varints and zigzag: the declarative forms the stream code is proved against. */
module Varint {
  import opened Bytes

  // ----- Base 128

  /** Number of bytes up to and including the first one without the continuation bit; 0 if there is none. */
  function VarintLength(s: seq<Byte>): (n: nat)
    ensures n <= |s|
    ensures n > 0 ==> s[n - 1] < 0x80 && forall k :: 0 <= k < n - 1 ==> s[k] >= 0x80
    ensures n == 0 ==> forall k :: 0 <= k < |s| ==> s[k] >= 0x80
  {
    if s == [] then 0
    else if s[0] < 0x80 then 1
    else
      var n := VarintLength(s[1..]);
      if n == 0 then
        assert forall k :: 0 < k < |s| ==> s[k] == s[1..][k - 1];
        0
      else
        assert forall k :: 0 < k < n + 1 ==> s[k] == s[1..][k - 1];
        n + 1
  }

  /** The number whose 7-bit groups, least significant first, are the low bits of the bytes. */
  function Base128(s: seq<Byte>): (v: nat)
  {
    if s == [] then 0 else s[0] % 0x80 + 0x80 * Base128(s[1..])
  }

  function Pow128(k: nat): (p: nat)
    ensures p > 0
  {
    if k == 0 then 1 else 0x80 * Pow128(k - 1)
  }

  lemma {:induction false} Base128Snoc(s: seq<Byte>, b: Byte)
    ensures Base128(s + [b]) == Base128(s) + b % 0x80 * Pow128(|s|)
  {
    if s == [] {
      assert s + [b] == [b];
      assert [b][1..] == [];
    } else {
      assert (s + [b])[1..] == s[1..] + [b];
      Base128Snoc(s[1..], b);
      assert 0x80 * (b % 0x80 * Pow128(|s| - 1)) == b % 0x80 * Pow128(|s|);
    }
  }

  lemma {:induction false} Base128Bound(s: seq<Byte>)
    ensures Base128(s) < Pow128(|s|)
  {
    if s == [] {
    } else {
      Base128Bound(s[1..]);
    }
  }

  /** The encoding with no superfluous continuation byte. */
  function VarintBytes(v: nat): (s: seq<Byte>)
    ensures |s| > 0
  {
    if v < 0x80 then [v] else [0x80 + v % 0x80] + VarintBytes(v / 0x80)
  }

  lemma ContinuedGroup(b: nat, high: seq<Byte>, tail: seq<Byte>)
    requires b < 0x80 && VarintLength(high + tail) == |high| > 0
    ensures VarintLength([0x80 + b] + high + tail) == 1 + |high|
    ensures Base128([0x80 + b] + high) == b + 0x80 * Base128(high)
  {
    assert ([0x80 + b] + high + tail)[1..] == high + tail;
    assert ([0x80 + b] + high)[1..] == high;
  }

  lemma {:induction false} VarintBytesDecode(v: nat, tail: seq<Byte>)
    ensures VarintLength(VarintBytes(v) + tail) == |VarintBytes(v)|
    ensures Base128(VarintBytes(v)) == v
  {
    if v >= 0x80 {
      VarintBytesDecode(v / 0x80, tail);
      var high := VarintBytes(v / 0x80);
      hide VarintBytes;
      ContinuedGroup(v % 0x80, high, tail);
    } else {
      assert VarintBytes(v) == [v] && [v][1..] == [];
    }
  }

  /** The number left after k groups of seven bits have been shifted out. */
  function Above(v: nat, k: nat): nat {
    if k == 0 then v else Above(v / 0x80, k - 1)
  }

  lemma {:induction false} AboveSucc(v: nat, k: nat)
    ensures Above(v, k + 1) == Above(v, k) / 0x80
  {
    if k == 0 {
    } else {
      AboveSucc(v / 0x80, k - 1);
    }
  }

  lemma {:induction false} AboveZero(v: nat, j: nat, k: nat)
    requires j <= k && Above(v, j) == 0
    ensures Above(v, k) == 0
  {
    if j < k {
      AboveZero(v, j, k - 1);
      AboveSucc(v, k - 1);
    }
  }

  /** Dropping k bytes drops k groups of the value; past the last byte nothing is left. */
  lemma {:induction false} Base128Above(s: seq<Byte>, k: nat)
    requires k <= |s|
    ensures Base128(s[k..]) == Above(Base128(s), k)
    ensures k < |s| ==> s[k] % 0x80 == Above(Base128(s), k) % 0x80
    ensures k == |s| ==> Above(Base128(s), k) == 0
  {
    if k > 0 {
      Base128Above(s[1..], k - 1);
      assert s[1..][k - 1..] == s[k..];
      assert Base128(s) / 0x80 == Base128(s[1..]);
    } else {
      assert s[0..] == s;
    }
  }

  lemma {:induction false} VarintBytesLength(v: nat, k: nat)
    requires Above(v, k) == 0 && k > 0
    ensures |VarintBytes(v)| <= k
  {
    if v >= 0x80 {
      assert k > 1;
      VarintBytesLength(v / 0x80, k - 1);
    }
  }

  lemma AboveChain(v: nat)
    ensures Above(v, 0) == v && Above(v, 1) == v / 0x80
    ensures Above(v, 2) == Above(v, 1) / 0x80 && Above(v, 3) == Above(v, 2) / 0x80
    ensures Above(v, 4) == Above(v, 3) / 0x80 && Above(v, 5) == Above(v, 4) / 0x80
    ensures Above(v, 6) == Above(v, 5) / 0x80 && Above(v, 7) == Above(v, 6) / 0x80
    ensures Above(v, 8) == Above(v, 7) / 0x80 && Above(v, 9) == Above(v, 8) / 0x80
    ensures Above(v, 10) == Above(v, 9) / 0x80
  {
    AboveSucc(v, 1);
    AboveSucc(v, 2);
    AboveSucc(v, 3);
    AboveSucc(v, 4);
    AboveSucc(v, 5);
    AboveSucc(v, 6);
    AboveSucc(v, 7);
    AboveSucc(v, 8);
    AboveSucc(v, 9);
  }

  /** The tenth group holds bit 63 alone. */
  lemma Fits64(v: nat)
    ensures v < TWO_64 <==> Above(v, 9) <= 1
    ensures v < TWO_64 ==> Above(v, 10) == 0
  {
    AboveChain(v);
  }

  /** A continued byte before a terminated string keeps its form when the rest has it. */
  lemma ShortestStep(b: Byte, rest: seq<Byte>, v: nat)
    requires b >= 0x80 && v == b % 0x80 + 0x80 * Base128(rest)
    ensures Base128(rest) > 0 ==> VarintBytes(v) == [b] + VarintBytes(Base128(rest))
    ensures Base128(rest) == 0 ==> |VarintBytes(v)| == |VarintBytes(Base128(rest))| == 1
  {
    var high := Base128(rest);
    hide Base128;
    assert v / 0x80 == high && v % 0x80 == b % 0x80;
  }

  /** A terminated byte string is never shorter than the emitted form, and is that form when it is as short. */
  lemma {:induction false} VarintBytesShortest(w: seq<Byte>)
    requires w != [] && VarintLength(w) == |w|
    ensures |VarintBytes(Base128(w))| <= |w|
    ensures |VarintBytes(Base128(w))| == |w| <==> w == VarintBytes(Base128(w))
  {
    if |w| == 1 {
      assert w[1..] == [];
    } else {
      assert VarintLength(w[1..]) == |w| - 1;
      VarintBytesShortest(w[1..]);
      ShortestStep(w[0], w[1..], Base128(w));
      assert w == [w[0]] + w[1..];
    }
  }

  // ----- The two decoders

  /** What the 64-bit decoder accepts: at most ten bytes whose value fits 64 bits. */
  function DecodeVarint(s: seq<Byte>): (r: Parsed<U64>)
    ensures r.Ok? ==> |r.rest| < |s|
  {
    var n := VarintLength(s);
    if 0 < n <= 10 && Base128(s[..n]) < TWO_64 then Ok(Base128(s[..n]), s[n..]) else Fail
  }

  predicate IsSignByte(w: seq<Byte>, k: nat)
    requires k < |w|
  {
    Base128(w) % TWO_32 >= 0x8000_0000 && w[k] == if k < 9 then 0xFF else 0x01
  }

  /**
   * What the 32-bit decoder tolerates above bit 31: group 4 may hold only the low four bits or have
   * bits 3..6 all set, and each later group is zero or, for a value with bit 31 set, the
   * byte a sign extension would put there.
   */
  predicate Fits32(w: seq<Byte>) {
    && (|w| >= 5 ==> w[4] % 0x80 < 0x10 || w[4] % 0x80 >= 0x78)
    && forall k :: 5 <= k < |w| ==> w[k] % 0x80 == 0 || IsSignByte(w, k)
  }

  function DecodeVarint32(s: seq<Byte>): (r: Parsed<U32>)
    ensures r.Ok? ==> |r.rest| < |s|
  {
    var n := VarintLength(s);
    if 0 < n <= 10 && Fits32(s[..n]) then Ok(Base128(s[..n]) % TWO_32, s[n..]) else Fail
  }

  /** The 32-bit decoder refines the 64-bit one: same bytes consumed, value equal modulo 2^32. */
  lemma Varint32Refines64(s: seq<Byte>)
    ensures DecodeVarint32(s).Ok? ==>
              && DecodeVarint(s).Ok?
              && DecodeVarint(s).rest == DecodeVarint32(s).rest
              && DecodeVarint(s).value % TWO_32 == DecodeVarint32(s).value
  {
    if DecodeVarint32(s).Ok? {
      var w := s[..VarintLength(s)];
      var v := Base128(w);
      Fits64(v);
      if |w| == 10 {
        Base128Above(w, 9);
        assert w[9..] == [w[9]] && [w[9]][1..] == [];
      } else {
        Base128Above(w, |w|);
        AboveZero(v, |w|, 9);
      }
    }
  }

  /** Below 2^32, or the sign extension of a negative 32-bit number. */
  predicate InFamilies(v: nat) { v < TWO_32 || v >= TWO_64 - 0x8000_0000 }

  /** The same of the bytes: what is above bit 31 is all clear, or all set up to the tenth byte. */
  predicate BytesInFamilies(w: seq<Byte>) {
    || |w| <= 4
    || (w[4] % 0x80 < 0x10 && forall k :: 5 <= k < |w| ==> w[k] % 0x80 == 0)
    || (|w| == 10 && w[4] % 0x80 >= 0x78 && forall k :: 5 <= k < |w| ==> w[k] % 0x80 != 0)
  }

  lemma FamilyGroups(v: nat)
    requires v < TWO_64
    ensures v < TWO_32 <==> Above(v, 4) % 0x80 < 0x10 && Above(v, 5) == 0
    ensures v >= TWO_64 - 0x8000_0000 <==> Above(v, 4) % 0x80 >= 0x78 && Above(v, 5) >= 0x1FFF_FFFF
  {
    assert Above(v, 4) == v / 0x1000_0000 by {
      AboveChain(v);
    }
    AboveSucc(v, 4);
    hide Above;
  }

  /** The number above group 4 is all ones exactly when each of its groups is, the tenth being 1. */
  lemma SetGroups(v: nat)
    requires v < TWO_64
    ensures Above(v, 5) >= 0x1FFF_FFFF <==>
              && Above(v, 5) % 0x80 == 0x7F && Above(v, 6) % 0x80 == 0x7F && Above(v, 7) % 0x80 == 0x7F
              && Above(v, 8) % 0x80 == 0x7F && Above(v, 9) == 1
  {
    AboveChain(v);
    Fits64(v);
    hide Above;
  }

  lemma LowGroups(v: nat)
    requires v < TWO_32
    ensures Above(v, 4) < 0x10 && Above(v, 5) == 0
  {
    AboveChain(v);
  }

  lemma SignGroups(v: nat)
    requires TWO_64 - 0x8000_0000 <= v < TWO_64
    ensures v % TWO_32 >= 0x8000_0000
    ensures Above(v, 4) % 0x80 >= 0x78 && Above(v, 5) % 0x80 == 0x7F && Above(v, 6) % 0x80 == 0x7F
    ensures Above(v, 7) % 0x80 == 0x7F && Above(v, 8) % 0x80 == 0x7F && Above(v, 9) == 1
  {
    assert v % TWO_32 >= 0x8000_0000;
    FamilyGroups(v);
    SetGroups(v);
  }

  /**
   * Every 64-bit varint whose value is below 2^32 or is the sign extension of a negative 32-bit
   * number is accepted by the 32-bit decoder, in any of its encodings.
   */
  lemma Varint32Accepts(s: seq<Byte>)
    requires DecodeVarint(s).Ok?
    requires DecodeVarint(s).value < TWO_32 || DecodeVarint(s).value >= TWO_64 - 0x8000_0000
    ensures DecodeVarint32(s) == Ok(DecodeVarint(s).value % TWO_32, DecodeVarint(s).rest)
  {
    var w := s[..VarintLength(s)];
    var v := Base128(w);
    if |w| >= 5 {
      Base128Above(w, 4);
      if v < TWO_32 {
        LowGroups(v);
      } else {
        SignGroups(v);
      }
    }
    forall k | 5 <= k < |w|
      ensures w[k] % 0x80 == 0 || IsSignByte(w, k)
    {
      Base128Above(w, k);
      if v < TWO_32 {
        LowGroups(v);
        AboveZero(v, 5, k);
      } else {
        SignGroups(v);
        Base128Above(w, |w|);
        if |w| <= 9 {
          AboveZero(v, |w|, 9);
        }
        assert |w| == 10;
      }
    }
  }

  /** No group is set exactly when nothing is above. */
  lemma {:induction false} ClearGroups(w: seq<Byte>, k: nat)
    requires k <= |w|
    ensures Above(Base128(w), k) == 0 <==> forall j :: k <= j < |w| ==> w[j] % 0x80 == 0
    decreases |w| - k
  {
    Base128Above(w, k);
    if k == |w| {
    } else {
      AboveSucc(Base128(w), k);
      ClearGroups(w, k + 1);
      hide Above, Base128;
      var above := Above(Base128(w), k);
      assert above == 0 <==> above % 0x80 == 0 && above / 0x80 == 0;
    }
  }

  lemma DecodedValue(s: seq<Byte>)
    requires DecodeVarint(s).Ok?
    ensures DecodeVarint(s).value == Base128(s[..VarintLength(s)])
  {
  }

  lemma NinthGroup(v: nat)
    requires v < TWO_64
    ensures Above(v, 9) == Above(v, 9) % 0x80 <= 1
  {
    Fits64(v);
  }

  lemma TenGroups(w: seq<Byte>)
    requires |w| == 10 && Fits32(w) && Base128(w) < TWO_64
    ensures var v := Base128(w);
            (&& Above(v, 5) % 0x80 == 0x7F && Above(v, 6) % 0x80 == 0x7F && Above(v, 7) % 0x80 == 0x7F
             && Above(v, 8) % 0x80 == 0x7F && Above(v, 9) == 1) <==> forall k :: 5 <= k < |w| ==> w[k] % 0x80 != 0
  {
    var v := Base128(w);
    hide Above, Base128;
    Base128Above(w, 5);
    Base128Above(w, 6);
    Base128Above(w, 7);
    Base128Above(w, 8);
    Base128Above(w, 9);
    NinthGroup(v);
    assert forall k :: 5 <= k < |w| ==> (w[k] % 0x80 != 0 <==> w[k] == if k < 9 then 0xFF else 0x01);
  }

  /** Above a group 4 that ends in four ones, later groups are set as signs or not at all. */
  lemma HighGroups(w: seq<Byte>)
    requires 5 <= |w| <= 10 && Fits32(w) && Base128(w) < TWO_64 && w[4] % 0x80 >= 0x78
    ensures Above(Base128(w), 5) >= 0x1FFF_FFFF <==> |w| == 10 && forall k :: 5 <= k < |w| ==> w[k] % 0x80 != 0
    ensures Above(Base128(w), 5) != 0 || forall k :: 5 <= k < |w| ==> w[k] % 0x80 == 0
  {
    var v := Base128(w);
    ClearGroups(w, 5);
    SetGroups(v);
    if |w| < 10 {
      Base128Above(w, |w|);
      AboveZero(v, |w|, 9);
    } else {
      TenGroups(w);
    }
  }

  lemma LongInFamilies(w: seq<Byte>)
    requires 5 <= |w| <= 10 && Fits32(w) && Base128(w) < TWO_64
    ensures InFamilies(Base128(w)) <==> BytesInFamilies(w)
  {
    var v := Base128(w);
    FamilyGroups(v);
    ClearGroups(w, 5);
    Base128Above(w, 4);
    hide Above;
    if w[4] % 0x80 >= 0x78 {
      HighGroups(w);
    }
  }

  /**
   * What the 32-bit decoder accepts is in one of the two families exactly when the bytes show it:
   * nothing above bit 31, or ten bytes with everything above bit 30 set.
   */
  lemma Varint32InFamilies(s: seq<Byte>)
    requires DecodeVarint32(s).Ok?
    ensures DecodeVarint(s).Ok?
    ensures InFamilies(DecodeVarint(s).value) <==> BytesInFamilies(s[..VarintLength(s)])
  {
    Varint32Refines64(s);
    var w := s[..VarintLength(s)];
    assert Fits32(w) && |w| <= 10;
    hide DecodeVarint, DecodeVarint32, VarintLength;
    assert DecodeVarint(s).value == Base128(w) by { DecodedValue(s); }
    Base128Above(w, |w|);
    if |w| <= 4 {
      AboveZero(Base128(w), |w|, 4);
      AboveZero(Base128(w), |w|, 5);
      FamilyGroups(Base128(w));
    } else {
      LongInFamilies(w);
    }
  }

  lemma Base128Step(s: seq<Byte>, k: nat)
    requires k < |s|
    ensures Base128(s[k..]) == s[k] % 0x80 + 0x80 * Base128(s[k + 1..])
    ensures Base128([]) == 0
  {
    assert s[k..][1..] == s[k + 1..];
  }

  lemma FiveGroups(s: seq<Byte>)
    requires s == [0xFF, 0xFF, 0xFF, 0xFF, 0x7F]
    ensures VarintLength(s) == 5 && Base128(s) == 0x7_FFFF_FFFF
  {
    hide Base128, VarintLength;
    Base128Step(s, 4);
    assert s[5..] == [];
    assert Base128(s[4..]) == 0x7F;
    Base128Step(s, 3);
    assert Base128(s[3..]) == 0x3FFF;
    Base128Step(s, 2);
    assert Base128(s[2..]) == 0x1F_FFFF;
    Base128Step(s, 1);
    assert Base128(s[1..]) == 0xFFF_FFFF;
    Base128Step(s, 0);
    assert s[0..] == s;
  }

  /** Acceptance is not limited to those two families: a 35-bit value passes and is truncated. */
  lemma Varint32AcceptsMore(s: seq<Byte>)
    requires s == [0xFF, 0xFF, 0xFF, 0xFF, 0x7F]
    ensures DecodeVarint(s) == Ok(0x7_FFFF_FFFF, [])
    ensures DecodeVarint32(s) == Ok(0xFFFF_FFFF, [])
  {
    FiveGroups(s);
    hide Base128, VarintLength;
    assert s[..5] == s && s[5..] == [];
    assert s[4] % 0x80 >= 0x78;
  }

  lemma VarintBytesLength64(v: U64)
    ensures |VarintBytes(v)| <= 10
  {
    Fits64(v);
    VarintBytesLength(v, 10);
  }

  lemma VarintRoundTrip64(v: U64, tail: seq<Byte>)
    ensures |VarintBytes(v)| <= 10
    ensures DecodeVarint(VarintBytes(v) + tail) == Ok(v, tail)
  {
    VarintBytesLength64(v);
    VarintBytesDecode(v, tail);
    var s := VarintBytes(v);
    assert (s + tail)[..|s|] == s && (s + tail)[|s|..] == tail;
  }

  /** Every 64-bit value survives encoding, whatever follows it on the wire, in at most ten bytes. */
  lemma VarintRoundTrip(v: U64, tail: seq<Byte>)
    ensures |VarintBytes(v)| <= 10
    ensures DecodeVarint(VarintBytes(v) + tail) == Ok(v, tail)
    ensures v < TWO_32 ==> DecodeVarint32(VarintBytes(v) + tail) == Ok(v, tail)
  {
    hide DecodeVarint32, DecodeVarint, VarintBytes;
    VarintRoundTrip64(v, tail);
    if v < TWO_32 {
      Varint32Accepts(VarintBytes(v) + tail);
    }
  }

  // ----- Stability under more input

  lemma {:induction false} VarintLengthExtend(s: seq<Byte>, t: seq<Byte>)
    requires VarintLength(s) > 0
    ensures VarintLength(s + t) == VarintLength(s)
  {
    assert (s + t)[0] == s[0];
    if s[0] >= 0x80 {
      assert (s + t)[1..] == s[1..] + t;
      VarintLengthExtend(s[1..], t);
    }
  }

  lemma VarintExtend(s: seq<Byte>, t: seq<Byte>)
    ensures DecodeVarint(s).Ok? ==> DecodeVarint(s + t) == Ok(DecodeVarint(s).value, DecodeVarint(s).rest + t)
    ensures DecodeVarint32(s).Ok? ==> DecodeVarint32(s + t) == Ok(DecodeVarint32(s).value, DecodeVarint32(s).rest + t)
  {
    var n := VarintLength(s);
    if n > 0 {
      VarintLengthExtend(s, t);
      assert (s + t)[..n] == s[..n] && (s + t)[n..] == s[n..] + t;
    }
  }

  // ----- Zigzag

  function Complement64(x: U64): U64 { TWO_64 - 1 - x }

  /** The 64-bit pattern of a signed number, and back. */
  function AsU64(v: I64): U64 { if v < 0 then v + TWO_64 else v }

  function AsI64(u: U64): I64 { if u >= 0x8000_0000_0000_0000 then u - TWO_64 else u }

  function ZigZag(v: I64): U64 {
    if v < 0 then Complement64(AsU64(v) % 0x8000_0000_0000_0000 * 2) else AsU64(v) * 2
  }

  function UnZigZag(u: U64): I64 {
    if u % 2 == 1 then AsI64(Complement64(u / 2)) else AsI64(u / 2)
  }

  /** A bijection between the signed and the unsigned 64-bit numbers, the minimum included. */
  lemma ZigZagBijection(v: I64, u: U64)
    ensures UnZigZag(ZigZag(v)) == v
    ensures ZigZag(UnZigZag(u)) == u
    ensures ZigZag(v) == if v < 0 then -2 * v - 1 else 2 * v
  {
  }
}
