/**
 * The frame checksum: an 8-bit shift register with generator x^8 + x^2 + x + 1, the polynomial
 * division it performs, and the transmission errors it cannot miss.
 */
module Crc8 {
  import opened Bytes
  import opened Bits

  // ----- The register

  /** One pass of the inner loop. */
  function Shift(r: Byte): Byte {
    if Top(r) then Add(Double(r), 0x07) else Double(r)
  }

  function Shifts(r: Byte, n: nat): Byte {
    if n == 0 then r else Shift(Shifts(r, n - 1))
  }

  function Feed(r: Byte, s: seq<Byte>): Byte
    decreases s
  {
    if s == [] then r else Feed(Shifts(Add(r, s[0]), 8), s[1..])
  }

  /** The checksum of a frame: over its length, its type and its payload. */
  function Crc(len: Byte, typ: Byte, data: seq<Byte>): Byte {
    Feed(0, [len, typ] + data)
  }

  lemma {:induction false} FeedConcat(r: Byte, s: seq<Byte>, t: seq<Byte>)
    ensures Feed(r, s + t) == Feed(Feed(r, s), t)
    decreases s
  {
    if s == [] {
      assert s + t == t;
    } else {
      assert (s + t)[1..] == s[1..] + t;
      FeedConcat(Shifts(Add(r, s[0]), 8), s[1..], t);
    }
  }

  lemma FeedSnoc(r: Byte, s: seq<Byte>, b: Byte)
    ensures Feed(r, s + [b]) == Shifts(Add(Feed(r, s), b), 8)
  {
    FeedConcat(r, s, [b]);
    assert [b][1..] == [];
  }

  lemma ShiftUnfolds(r: Byte)
    ensures Shift(r) == if Top(r) then Add(Double(r), 0x07) else Double(r)
  {
  }

  /** The checksum routine: length, type and payload are shifted in one after the other. */
  method ComputeCrc(len: Byte, typ: Byte, data: seq<Byte>) returns (crc: Byte)
    requires |data| == len
    ensures crc == Crc(len, typ, data)
  {
    hide Shift, Add;
    ghost var covered := [len, typ] + data;
    crc := Add(0, len);
    for j := 0 to 8
      invariant crc == Shifts(Add(0, len), j)
    {
      crc := if Top(crc) then Add(Double(crc), 0x07) else Double(crc);
      ShiftUnfolds(Shifts(Add(0, len), j));
    }
    FeedSnoc(0, [], len);
    assert covered[..1] == [] + [len];
    ghost var r := crc;
    crc := Add(crc, typ);
    for j := 0 to 8
      invariant crc == Shifts(Add(r, typ), j)
    {
      crc := if Top(crc) then Add(Double(crc), 0x07) else Double(crc);
      ShiftUnfolds(Shifts(Add(r, typ), j));
    }
    FeedSnoc(0, covered[..1], typ);
    assert covered[..2] == covered[..1] + [typ];
    for i := 0 to len
      invariant crc == Feed(0, covered[..i + 2])
    {
      r := crc;
      crc := Add(crc, data[i]);
      for j := 0 to 8
        invariant crc == Shifts(Add(r, data[i]), j)
      {
        crc := if Top(crc) then Add(Double(crc), 0x07) else Double(crc);
        ShiftUnfolds(Shifts(Add(r, data[i]), j));
      }
      FeedSnoc(0, covered[..i + 2], data[i]);
      assert covered[..i + 3] == covered[..i + 2] + [data[i]];
    }
    assert covered[..len + 2] == covered;
  }

  // ----- Bit by bit

  /** The bits of an octet, most significant first. */
  function ByteBits(b: Byte): (s: seq<bool>)
    ensures |s| == 8
  {
    seq(8, i requires 0 <= i < 8 => Bit(b, 7 - i))
  }

  function BitList(s: seq<Byte>): (bits: seq<bool>)
    ensures |bits| == 8 * |s|
  {
    if s == [] then [] else ByteBits(s[0]) + BitList(s[1..])
  }

  function FeedBit(r: Byte, b: bool): Byte {
    Shift(if b then Add(r, 0x80) else r)
  }

  function FeedBits(r: Byte, bits: seq<bool>): Byte
    decreases bits
  {
    if bits == [] then r else FeedBits(FeedBit(r, bits[0]), bits[1..])
  }

  lemma {:induction false} FeedBitsConcat(r: Byte, s: seq<bool>, t: seq<bool>)
    ensures FeedBits(r, s + t) == FeedBits(FeedBits(r, s), t)
    decreases s
  {
    if s == [] {
      assert s + t == t;
    } else {
      assert (s + t)[1..] == s[1..] + t;
      FeedBitsConcat(FeedBit(r, s[0]), s[1..], t);
    }
  }

  lemma SevenBits(k: nat)
    requires k < 8
    ensures Bit(0x07, k) <==> k <= 2
    ensures Bit(0x80, k) <==> k == 7
  {
    Pow2Values();
    TopBit(0x80, 7);
    if k < 7 {
      BelowTop(0x80, 7, k);
    }
    ZeroBit(k);
    if k >= 3 {
      assert Bit(0x07, k) == Bit(0, k - 3) by {
        assert Bit(0x07, k) == Bit(3, k - 1) && Bit(3, k - 1) == Bit(1, k - 2);
      }
      ZeroBit(k - 3);
    } else if k == 2 {
      assert Bit(0x07, 2) == Bit(3, 1);
    }
  }

  /** Every bit of the shifted register: its neighbour, and the outgoing bit at x^2, x and 1. */
  lemma ShiftBit(r: Byte, k: nat)
    requires k < 8
    ensures Bit(Shift(r), k) == ((k > 0 && Bit(r, k - 1)) != (k <= 2 && Bit(r, 7)))
  {
    hide Add, Double;
    TopIsBit7(r);
    DoubleBit(r, k);
    AddBit(Double(r), 0x07, k);
    SevenBits(k);
  }

  lemma FeedBitBit(r: Byte, b: bool, k: nat)
    requires k < 8
    ensures Bit(FeedBit(r, b), k) == ((k > 0 && Bit(r, k - 1)) != (k <= 2 && Bit(r, 7) != b))
  {
    hide Add, Shift;
    ShiftBit(r, k);
    ShiftBit(Add(r, 0x80), k);
    AddBit(r, 0x80, 7);
    SevenBits(7);
    if k > 0 {
      AddBit(r, 0x80, k - 1);
      SevenBits(k - 1);
    }
  }

  /** What is left of an octet after n of its bits have been taken off the top. */
  function Below(d: Byte, n: nat): Byte {
    if n == 0 then d else Double(Below(d, n - 1))
  }

  lemma {:induction false} BelowBit(d: Byte, n: nat, k: nat)
    requires k < 8
    ensures Bit(Below(d, n), k) <==> n <= k && Bit(d, k - n)
  {
    if n == 0 {
    } else {
      DoubleBit(Below(d, n - 1), k);
      if k > 0 {
        BelowBit(d, n - 1, k - 1);
      }
    }
  }

  lemma ShiftSplit(r: Byte, d: Byte)
    ensures Shift(Add(r, d)) == Add(FeedBit(r, Bit(d, 7)), Double(d))
  {
    hide Shift, FeedBit, Add, Double;
    var left, right := Shift(Add(r, d)), Add(FeedBit(r, Bit(d, 7)), Double(d));
    forall k | 0 <= k < 8
      ensures Bit(left, k) == Bit(right, k)
    {
      ShiftBit(Add(r, d), k);
      AddBit(r, d, 7);
      AddBit(FeedBit(r, Bit(d, 7)), Double(d), k);
      FeedBitBit(r, Bit(d, 7), k);
      DoubleBit(d, k);
      if k > 0 {
        AddBit(r, d, k - 1);
      }
    }
    SameOctet(left, right);
  }

  lemma {:induction false} FeedTopBits(r: Byte, d: Byte, n: nat)
    requires n <= 8
    ensures Shifts(Add(r, d), n) == Add(FeedBits(r, ByteBits(d)[..n]), Below(d, n))
  {
    hide Shift, FeedBit, Add, Double;
    if n > 0 {
      FeedTopBits(r, d, n - 1);
      var before, below := ByteBits(d)[..n - 1], Below(d, n - 1);
      BelowBit(d, n - 1, 7);
      ShiftSplit(FeedBits(r, before), below);
      FeedBitsConcat(r, before, [Bit(below, 7)]);
      assert [Bit(below, 7)][1..] == [];
      assert ByteBits(d)[..n] == before + [Bit(below, 7)];
    } else {
      assert ByteBits(d)[..0] == [];
    }
  }

  /** Adding a whole octet and shifting eight times is adding its bits one at a time. */
  lemma FeedByte(r: Byte, d: Byte)
    ensures Shifts(Add(r, d), 8) == FeedBits(r, ByteBits(d))
  {
    hide Shifts, FeedBits, Add, Below;
    FeedTopBits(r, d, 8);
    assert ByteBits(d)[..8] == ByteBits(d);
    forall k | 0 <= k < 8
      ensures Bit(Below(d, 8), k) == Bit(0, k)
    {
      BelowBit(d, 8, k);
      ZeroBit(k);
    }
    SameOctet(Below(d, 8), 0);
    AddZero(FeedBits(r, ByteBits(d)));
  }

  lemma {:induction false} FeedIsBitwise(r: Byte, s: seq<Byte>)
    ensures Feed(r, s) == FeedBits(r, BitList(s))
    decreases s
  {
    hide Shifts, Add, ByteBits;
    if s == [] {
    } else {
      FeedByte(r, s[0]);
      FeedIsBitwise(Shifts(Add(r, s[0]), 8), s[1..]);
      FeedBitsConcat(r, ByteBits(s[0]), BitList(s[1..]));
    }
  }

  // ----- Polynomial division

  /** Coefficient i of a bit string, zero outside it. */
  predicate At(p: seq<bool>, i: int) { 0 <= i < |p| && p[i] }

  /** Coefficient j, highest power first, of q times x^8 + x^2 + x + 1. */
  predicate TimesGenerator(q: seq<bool>, j: int) {
    (At(q, j) != At(q, j - 6)) != (At(q, j - 7) != At(q, j - 8))
  }

  /** m * x^8 == q * (x^8 + x^2 + x + 1) + r over GF(2), with r of degree below 8. */
  ghost predicate Divides(m: seq<bool>, q: seq<bool>, r: seq<bool>) {
    && |q| == |m| && |r| == 8
    && forall j :: 0 <= j < |m| + 8 ==> At(m, j) == (TimesGenerator(q, j) != At(r, j - |m|))
  }

  lemma Appended(q: seq<bool>, b: bool, i: int)
    ensures At(q + [b], i) == if i == |q| then b else At(q, i)
  {
  }

  /** One more message bit extends the quotient by the bit leaving the register. */
  lemma DivideStep(m: seq<bool>, q: seq<bool>, r: Byte, b: bool)
    requires Divides(m, q, ByteBits(r))
    ensures Divides(m + [b], q + [Bit(r, 7) != b], ByteBits(FeedBit(r, b)))
  {
    hide FeedBit;
    var top := Bit(r, 7) != b;
    var m', q', u, v := m + [b], q + [top], ByteBits(r), ByteBits(FeedBit(r, b));
    forall j | 0 <= j < |m'| + 8
      ensures At(m', j) == (TimesGenerator(q', j) != At(v, j - |m'|))
    {
      assert At(m, j) == (TimesGenerator(q, j) != At(u, j - |m|));
      Appended(q, top, j);
      Appended(q, top, j - 6);
      Appended(q, top, j - 7);
      Appended(q, top, j - 8);
      Appended(m, b, j);
      var i := j - |m'|;
      if 0 <= i < 8 {
        FeedBitBit(r, b, 7 - i);
      }
    }
  }

  lemma {:induction false} DivideBits(m: seq<bool>, q: seq<bool>, r: Byte, bits: seq<bool>)
    returns (quotient: seq<bool>)
    requires Divides(m, q, ByteBits(r))
    ensures Divides(m + bits, quotient, ByteBits(FeedBits(r, bits)))
    decreases bits
  {
    hide Divides, FeedBit, ByteBits;
    if bits == [] {
      assert m + bits == m;
      quotient := q;
    } else {
      DivideStep(m, q, r, bits[0]);
      quotient := DivideBits(m + [bits[0]], q + [Bit(r, 7) != bits[0]], FeedBit(r, bits[0]), bits[1..]);
      assert m + [bits[0]] + bits[1..] == m + bits;
    }
  }

  /** The register holds the remainder of the message polynomial. */
  lemma CrcIsRemainder(s: seq<Byte>) returns (quotient: seq<bool>)
    ensures Divides(BitList(s), quotient, ByteBits(Feed(0, s)))
  {
    FeedIsBitwise(0, s);
    assert Divides([], [], ByteBits(0)) by {
      forall k | 0 <= k < 8
        ensures !Bit(0, k)
      {
        ZeroBit(k);
      }
    }
    hide Divides, ByteBits;
    quotient := DivideBits([], [], 0, BitList(s));
    assert [] + BitList(s) == BitList(s);
  }

  lemma {:induction false} QuotientUnique(m: seq<bool>, q: seq<bool>, r: seq<bool>, q': seq<bool>, r': seq<bool>,
                                          n: nat)
    requires Divides(m, q, r) && Divides(m, q', r') && n <= |m|
    ensures q[..n] == q'[..n]
  {
    if n == 0 {
    } else {
      QuotientUnique(m, q, r, q', r', n - 1);
      var j := n - 1;
      assert At(m, j) == (TimesGenerator(q, j) != At(r, j - |m|));
      assert At(m, j) == (TimesGenerator(q', j) != At(r', j - |m|));
      assert forall i :: i < j ==> At(q, i) == At(q[..j], i) && At(q', i) == At(q'[..j], i);
      assert q[j] == q'[j];
      assert q[..n] == q[..j] + [q[j]] && q'[..n] == q'[..j] + [q'[j]];
    }
  }

  /** Division has one quotient and one remainder, so the register value is the remainder. */
  lemma RemainderUnique(m: seq<bool>, q: seq<bool>, r: seq<bool>, q': seq<bool>, r': seq<bool>)
    requires Divides(m, q, r) && Divides(m, q', r')
    ensures q == q' && r == r'
  {
    QuotientUnique(m, q, r, q', r', |m|);
    assert q == q[..|m|] == q'[..|m|] == q';
    forall i | 0 <= i < 8
      ensures r[i] == r'[i]
    {
      var j := |m| + i;
      assert At(m, j) == (TimesGenerator(q, j) != At(r, i));
      assert At(m, j) == (TimesGenerator(q', j) != At(r', i));
    }
  }

  // ----- Errors

  /** The octets of s with the bits of e flipped. */
  function Flip(s: seq<Byte>, e: seq<Byte>): (t: seq<Byte>)
    requires |s| == |e|
    ensures |t| == |s| && forall k :: 0 <= k < |s| ==> t[k] == Add(s[k], e[k])
  {
    seq(|s|, k requires 0 <= k < |s| => Add(s[k], e[k]))
  }

  lemma ShiftLinear(a: Byte, b: Byte)
    ensures Shift(Add(a, b)) == Add(Shift(a), Shift(b))
  {
    hide Shift, Add;
    var left, right := Shift(Add(a, b)), Add(Shift(a), Shift(b));
    forall k | 0 <= k < 8
      ensures Bit(left, k) == Bit(right, k)
    {
      ShiftBit(Add(a, b), k);
      ShiftBit(a, k);
      ShiftBit(b, k);
      AddBit(a, b, 7);
      AddBit(Shift(a), Shift(b), k);
      if k > 0 {
        AddBit(a, b, k - 1);
      }
    }
    SameOctet(left, right);
  }

  lemma {:induction false} ShiftsLinear(a: Byte, b: Byte, n: nat)
    ensures Shifts(Add(a, b), n) == Add(Shifts(a, n), Shifts(b, n))
  {
    hide Shift, Add;
    if n == 0 {
    } else {
      ShiftsLinear(a, b, n - 1);
      ShiftLinear(Shifts(a, n - 1), Shifts(b, n - 1));
    }
  }

  lemma AddSwap(a: Byte, s: Byte, b: Byte, e: Byte)
    ensures Add(Add(a, s), Add(b, e)) == Add(Add(a, b), Add(s, e))
  {
    hide Add;
    AddAssociates(a, s, Add(b, e));
    AddAssociates(s, b, e);
    AddCommutes(s, b);
    AddAssociates(b, s, e);
    AddAssociates(a, b, Add(s, e));
  }

  lemma {:induction false} FeedLinear(a: Byte, b: Byte, s: seq<Byte>, e: seq<Byte>)
    requires |s| == |e|
    ensures Feed(Add(a, b), Flip(s, e)) == Add(Feed(a, s), Feed(b, e))
    decreases s
  {
    hide Shifts, Add;
    if s == [] {
    } else {
      ShiftsLinear(Add(a, s[0]), Add(b, e[0]), 8);
      AddSwap(a, s[0], b, e[0]);
      assert Flip(s, e)[1..] == Flip(s[1..], e[1..]);
      FeedLinear(Shifts(Add(a, s[0]), 8), Shifts(Add(b, e[0]), 8), s[1..], e[1..]);
    }
  }

  /** A shift loses no information: only the zero register shifts to zero. */
  lemma ShiftZero(r: Byte)
    ensures Shift(r) == 0 <==> r == 0
  {
    hide Shift;
    forall k | 0 <= k < 8
      ensures Shift(r) == 0 ==> Bit(r, k) == Bit(0, k)
      ensures r == 0 ==> Bit(Shift(r), k) == Bit(0, k)
    {
      ZeroBit(k);
      ZeroBit(7);
      ShiftBit(r, 0);
      ShiftBit(r, k);
      ZeroBit(0);
      if k < 7 {
        ShiftBit(r, k + 1);
        ZeroBit(k + 1);
      }
      if k > 0 {
        ZeroBit(k - 1);
      }
    }
    if Shift(r) == 0 {
      SameOctet(r, 0);
    }
    if r == 0 {
      SameOctet(Shift(r), 0);
    }
  }

  lemma {:induction false} ShiftsZero(r: Byte, n: nat)
    ensures Shifts(r, n) == 0 <==> r == 0
  {
    hide Shift;
    if n == 0 {
    } else {
      ShiftsZero(r, n - 1);
      ShiftZero(Shifts(r, n - 1));
    }
  }

  /** Whether the number of set bits in the whole pattern is odd. */
  predicate OddWeight(e: seq<Byte>) {
    e != [] && Parity(e[0]) != OddWeight(e[1..])
  }

  lemma AddTop(low: Byte)
    requires low < 0x80
    ensures Xor(low, 0x80) == low + 0x80
  {
    Pow2Values();
    forall k | 0 <= k < 8
      ensures Bit(Add(low, 0x80), k) == Bit(low + 0x80, k)
    {
      AddBit(low, 0x80, k);
      SevenBits(k);
      TopBit(low + 0x80, 7);
      TopBit(low, 7);
      if k < 7 {
        BelowTop(low + 0x80, 7, k);
      }
    }
    SameOctet(Add(low, 0x80), low + 0x80);
  }

  lemma ShiftKeepsParity(r: Byte)
    ensures Parity(Shift(r)) == Parity(r)
  {
    if Top(r) {
      var low := r - 0x80;
      ParityXor(Double(r), 0x07);
      assert Double(r) / 2 == low;
      ParityStep(Double(r));
      ParityXor(low, 0x80);
      AddTop(low);
      assert Parity(0x07) && Parity(0x80) by {
        assert Parity(1) && Parity(0x08) && Parity(0x20);
      }
    } else {
      assert Double(r) / 2 == r;
      ParityStep(Double(r));
    }
  }

  lemma {:induction false} ShiftsKeepParity(r: Byte, n: nat)
    ensures Parity(Shifts(r, n)) == Parity(r)
  {
    hide Shift, Parity;
    if n == 0 {
    } else {
      ShiftsKeepParity(r, n - 1);
      ShiftKeepsParity(Shifts(r, n - 1));
    }
  }

  lemma {:induction false} FeedParity(r: Byte, e: seq<Byte>)
    ensures Parity(Feed(r, e)) == (Parity(r) != OddWeight(e))
    decreases e
  {
    hide Shifts, Parity, Xor;
    if e == [] {
    } else {
      ParityXor(r, e[0]);
      ShiftsKeepParity(Add(r, e[0]), 8);
      FeedParity(Shifts(Add(r, e[0]), 8), e[1..]);
    }
  }

  /** At least one bit is wrong and all wrong bits lie within eight consecutive positions from p. */
  predicate Burst(e: seq<bool>, p: nat) {
    && (exists j :: 0 <= j < |e| && e[j])
    && forall j :: 0 <= j < |e| && e[j] ==> p <= j < p + 8
  }

  lemma {:induction false} FeedZeros(r: Byte, bits: seq<bool>)
    requires forall j :: 0 <= j < |bits| ==> !bits[j]
    ensures FeedBits(r, bits) == 0 <==> r == 0
    decreases bits
  {
    hide Shift;
    if bits == [] {
    } else {
      ShiftZero(r);
      FeedZeros(FeedBit(r, bits[0]), bits[1..]);
    }
  }

  /** Eight bits, not all zero, fed into an empty register leave something in it. */
  lemma WindowLeavesRegister(window: seq<bool>, j: nat)
    requires |window| == 8 && j < 8 && window[j]
    ensures FeedBits(0, window) != 0
  {
    hide FeedBits, Shifts, Add;
    ValueBits(window);
    WithinByte(Value(window));
    var d: Byte := Value(window);
    assert ByteBits(d) == window;
    ZeroBit(7 - j);
    assert d != 0;
    FeedByte(0, d);
    AddCommutes(0, d);
    AddZero(d);
    ShiftsZero(d, 8);
  }

  lemma BurstLeavesRegister(e: seq<bool>, p: nat)
    requires |e| >= 8 && Burst(e, p)
    ensures FeedBits(0, e) != 0
  {
    hide FeedBits;
    var p := if p + 8 <= |e| then p else |e| - 8;
    var before, window, after := e[..p], e[p..p + 8], e[p + 8..];
    assert e == before + window + after;
    FeedBitsConcat(0, before + window, after);
    FeedBitsConcat(0, before, window);
    FeedZeros(0, before);
    var j :| 0 <= j < |e| && e[j];
    assert window[j - p];
    WindowLeavesRegister(window, j - p);
    FeedZeros(FeedBits(0, window), after);
  }

  /** The receiver's test on TYPE, PAYLOAD and CRC for an already received LEN. */
  predicate Accepts(len: Byte, body: seq<Byte>)
    requires |body| == len + 2
  {
    Crc(len, body[0], body[1..len + 1]) == body[len + 1]
  }

  /** Acceptance means that LEN, TYPE, PAYLOAD and CRC together leave the register at zero. */
  lemma AcceptsIffZero(len: Byte, body: seq<Byte>)
    requires |body| == len + 2
    ensures Accepts(len, body) <==> Feed(0, [len] + body) == 0
  {
    hide Shifts, Add, Feed;
    var covered := [len, body[0]] + body[1..len + 1];
    var r, c := Feed(0, covered), body[len + 1];
    assert covered + [c] == [len] + body;
    FeedSnoc(0, covered, c);
    ShiftsZero(Add(r, c), 8);
    AddGroup(r, c, 0);
  }

  lemma FeedLeadingZero(e: seq<Byte>)
    ensures Feed(0, [0] + e) == Feed(0, e)
  {
    hide Shifts, Add;
    assert ([0] + e)[1..] == e;
    AddZero(0);
    ShiftsZero(0, 8);
  }

  /** A damaged frame passes exactly when the error pattern alone leaves the register at zero. */
  lemma DamageAcceptedIff(len: Byte, body: seq<Byte>, e: seq<Byte>)
    requires |body| == |e| == len + 2 && Accepts(len, body)
    ensures Accepts(len, Flip(body, e)) <==> Feed(0, e) == 0
  {
    hide Shifts, Add, Accepts, Feed;
    AcceptsIffZero(len, body);
    AcceptsIffZero(len, Flip(body, e));
    AddZero(len);
    assert [len] + Flip(body, e) == Flip([len] + body, [0] + e);
    AddZero(0);
    FeedLinear(0, 0, [len] + body, [0] + e);
    AddCommutes(0, Feed(0, [0] + e));
    AddZero(Feed(0, [0] + e));
    FeedLeadingZero(e);
  }

  /**
   * With LEN intact, an odd number of flipped bits, or any flips confined to eight consecutive bits,
   * anywhere in TYPE, PAYLOAD and CRC, is always rejected.
   */
  lemma DamageRejected(len: Byte, body: seq<Byte>, e: seq<Byte>, p: nat)
    requires |body| == |e| == len + 2 && Accepts(len, body)
    requires OddWeight(e) || Burst(BitList(e), p)
    ensures !Accepts(len, Flip(body, e))
  {
    hide Accepts;
    DamageAcceptedIff(len, body, e);
    if OddWeight(e) {
      FeedParity(0, e);
    } else {
      FeedIsBitwise(0, e);
      BurstLeavesRegister(BitList(e), p);
    }
  }

  lemma {:induction false} BitListAt(s: seq<Byte>, j: nat)
    requires j < 8 * |s|
    ensures BitList(s)[j] == Bit(s[j / 8], 7 - j % 8)
  {
    if j < 8 {
    } else {
      hide Bit;
      BitListAt(s[1..], j - 8);
      assert (j - 8) / 8 == j / 8 - 1 && (j - 8) % 8 == j % 8;
    }
  }

  lemma SomeBit(d: Byte) returns (k: nat)
    requires d != 0
    ensures k < 8 && Bit(d, k)
  {
    hide Bit;
    if k0: nat :| k0 < 8 && Bit(d, k0) {
      k := k0;
    } else {
      forall i | 0 <= i < 8
        ensures Bit(d, i) == Bit(0, i)
      {
        ZeroBit(i);
      }
      SameOctet(d, 0);
      assert false;
    }
  }

  /** An error in one octet is a burst. */
  lemma OneOctetBurst(e: seq<Byte>, i: nat)
    requires i < |e| && e[i] != 0 && forall j :: 0 <= j < |e| && j != i ==> e[j] == 0
    ensures Burst(BitList(e), 8 * i)
  {
    hide Bit, BitList;
    var bits := BitList(e);
    var k := SomeBit(e[i]);
    BitListAt(e, 8 * i + (7 - k));
    assert bits[8 * i + (7 - k)];
    forall j | 0 <= j < |bits| && bits[j]
      ensures 8 * i <= j < 8 * i + 8
    {
      BitListAt(e, j);
      ZeroBit(7 - j % 8);
      assert j / 8 == i;
    }
  }

  /** In particular a frame with one wrong octet behind LEN is rejected, whichever it is and whatever it became. */
  lemma WrongOctetRejected(len: Byte, body: seq<Byte>, i: nat, x: Byte)
    requires |body| == len + 2 && Accepts(len, body) && i < |body| && body[i] != x
    ensures !Accepts(len, body[i := x])
  {
    var d := Add(body[i], x);
    var e := seq(|body|, j => 0)[i := d];
    AddGroup(body[i], x, 0);
    OneOctetBurst(e, i);
    forall j | 0 <= j < |body|
      ensures Flip(body, e)[j] == body[i := x][j]
    {
      AddZero(body[j]);
      AddGroup(body[i], body[i], x);
      AddCommutes(0, x);
      AddZero(x);
    }
    assert Flip(body, e) == body[i := x];
    hide Accepts, Burst;
    DamageRejected(len, body, e, 8 * i);
  }
}
