/** Bits and bitwise exclusive or of natural numbers, by arithmetic. */
module Bits {
  import opened Bytes

  /** Bit k of x. */
  predicate Bit(x: nat, k: nat) {
    if k == 0 then x % 2 == 1 else Bit(x / 2, k - 1)
  }

  function Xor(a: nat, b: nat): nat
    decreases a + b
  {
    if a == 0 && b == 0 then 0 else (if a % 2 != b % 2 then 1 else 0) + 2 * Xor(a / 2, b / 2)
  }

  /** x has no bit above its n lowest. */
  predicate Within(x: nat, n: nat) {
    if n == 0 then x == 0 else Within(x / 2, n - 1)
  }

  lemma {:induction false} ZeroBit(k: nat)
    ensures !Bit(0, k)
  {
    if k == 0 {
    } else {
      ZeroBit(k - 1);
    }
  }

  lemma {:induction false} XorBit(a: nat, b: nat, k: nat)
    ensures Bit(Xor(a, b), k) <==> Bit(a, k) != Bit(b, k)
    decreases k
  {
    var x := Xor(a, b);
    if a == 0 && b == 0 {
      ZeroBit(k);
    } else {
      assert x / 2 == Xor(a / 2, b / 2);
      if k > 0 {
        XorBit(a / 2, b / 2, k - 1);
      }
    }
  }

  lemma {:induction false} ZeroWithin(n: nat)
    ensures Within(0, n)
  {
    if n == 0 {
    } else {
      ZeroWithin(n - 1);
    }
  }

  lemma {:induction false} XorWithin(a: nat, b: nat, n: nat)
    requires Within(a, n) && Within(b, n)
    ensures Within(Xor(a, b), n)
    decreases n
  {
    if n > 0 && (a != 0 || b != 0) {
      assert Xor(a, b) / 2 == Xor(a / 2, b / 2);
      XorWithin(a / 2, b / 2, n - 1);
    } else if n > 0 {
      ZeroWithin(n);
    }
  }

  /** Numbers with the same bits are the same. */
  lemma {:induction false} SameBits(a: nat, b: nat, n: nat)
    requires Within(a, n) && Within(b, n)
    requires forall k :: 0 <= k < n ==> Bit(a, k) == Bit(b, k)
    ensures a == b
  {
    if n == 0 {
    } else {
      assert Bit(a, 0) == Bit(b, 0);
      forall k | 0 <= k < n - 1
        ensures Bit(a / 2, k) == Bit(b / 2, k)
      {
        assert Bit(a, k + 1) == Bit(b, k + 1);
      }
      SameBits(a / 2, b / 2, n - 1);
    }
  }

  function Pow2(n: nat): (p: nat)
    ensures p > 0
  {
    if n == 0 then 1 else 2 * Pow2(n - 1)
  }

  lemma {:induction false} WithinPow2(x: nat, n: nat)
    ensures Within(x, n) <==> x < Pow2(n)
  {
    if n == 0 {
    } else {
      WithinPow2(x / 2, n - 1);
    }
  }

  lemma Pow2Values()
    ensures Pow2(7) == 0x80
  {
    assert Pow2(3) == 8;
    assert Pow2(5) == 0x20;
  }

  lemma WithinByte(x: nat)
    ensures Within(x, 8) <==> x < 0x100
  {
    WithinPow2(x, 8);
    Pow2Values();
  }

  /** Addition over GF(2) of two octets. */
  function Add(a: Byte, b: Byte): Byte {
    WithinByte(a);
    WithinByte(b);
    XorWithin(a, b, 8);
    WithinByte(Xor(a, b));
    Xor(a, b)
  }

  /** Two octets are equal when their eight bits are. */
  lemma SameOctet(a: Byte, b: Byte)
    requires forall k :: 0 <= k < 8 ==> Bit(a, k) == Bit(b, k)
    ensures a == b
  {
    WithinByte(a);
    WithinByte(b);
    SameBits(a, b, 8);
  }

  lemma AddBit(a: Byte, b: Byte, k: nat)
    ensures Bit(Add(a, b), k) <==> Bit(a, k) != Bit(b, k)
  {
    XorBit(a, b, k);
  }

  lemma AddCommutes(a: Byte, b: Byte)
    ensures Add(a, b) == Add(b, a)
  {
    forall k | 0 <= k < 8
      ensures Bit(Add(a, b), k) == Bit(Add(b, a), k)
    {
      AddBit(a, b, k);
      AddBit(b, a, k);
    }
    SameOctet(Add(a, b), Add(b, a));
  }

  lemma AddAssociates(a: Byte, b: Byte, c: Byte)
    ensures Add(Add(a, b), c) == Add(a, Add(b, c))
  {
    forall k | 0 <= k < 8
      ensures Bit(Add(Add(a, b), c), k) == Bit(Add(a, Add(b, c)), k)
    {
      AddBit(a, b, k);
      AddBit(Add(a, b), c, k);
      AddBit(b, c, k);
      AddBit(a, Add(b, c), k);
    }
    SameOctet(Add(Add(a, b), c), Add(a, Add(b, c)));
  }

  lemma AddZero(a: Byte)
    ensures Add(a, 0) == a
  {
    forall k | 0 <= k < 8
      ensures Bit(Add(a, 0), k) == Bit(a, k)
    {
      AddBit(a, 0, k);
      ZeroBit(k);
    }
    SameOctet(Add(a, 0), a);
  }

  lemma AddSelf(a: Byte)
    ensures Add(a, a) == 0
  {
    forall k | 0 <= k < 8
      ensures Bit(Add(a, a), k) == Bit(0, k)
    {
      AddBit(a, a, k);
      ZeroBit(k);
    }
    SameOctet(Add(a, a), 0);
  }

  lemma AddGroup(a: Byte, b: Byte, c: Byte)
    ensures Add(a, b) == Add(b, a)
    ensures Add(Add(a, b), c) == Add(a, Add(b, c))
    ensures Add(a, 0) == a && Add(a, a) == 0
    ensures Add(a, b) == 0 <==> a == b
  {
    AddCommutes(a, b);
    AddAssociates(a, b, c);
    AddZero(a);
    AddSelf(a);
    if Add(a, b) == 0 {
      AddAssociates(a, a, b);
      AddSelf(a);
      AddZero(a);
      AddZero(b);
      AddCommutes(0, b);
    }
  }

  lemma {:induction false} TopBit(x: nat, n: nat)
    requires x < 2 * Pow2(n)
    ensures Bit(x, n) <==> x >= Pow2(n)
  {
    if n == 0 {
    } else {
      TopBit(x / 2, n - 1);
    }
  }

  /** Taking a set bit away leaves the bits below it alone. */
  lemma {:induction false} BelowTop(x: nat, n: nat, k: nat)
    requires x >= Pow2(n) && k < n
    ensures Bit(x - Pow2(n), k) == Bit(x, k)
    decreases k
  {
    assert (x - Pow2(n)) / 2 == x / 2 - Pow2(n - 1);
    if k == 0 {
    } else {
      BelowTop(x / 2, n - 1, k - 1);
    }
  }

  /** The register's top bit, the one C tests with 0x80. */
  predicate Top(x: Byte) { x >= 0x80 }

  lemma TopIsBit7(x: Byte)
    ensures Top(x) <==> Bit(x, 7)
  {
    Pow2Values();
    TopBit(x, 7);
  }

  /** x << 1 in an eight-bit register. */
  function Double(x: Byte): Byte {
    if Top(x) then 2 * x - 0x100 else 2 * x
  }

  lemma DoubleBit(x: Byte, k: nat)
    requires k < 8
    ensures Bit(Double(x), k) <==> k > 0 && Bit(x, k - 1)
  {
    Pow2Values();
    if k > 0 && Top(x) {
      assert Double(x) / 2 == x - 0x80;
      BelowTop(x, 7, k - 1);
    } else if k > 0 {
      assert Double(x) / 2 == x;
    }
  }

  /** Whether the number of set bits is odd. */
  predicate Parity(x: nat) {
    x != 0 && (x % 2 == 1) != Parity(x / 2)
  }

  lemma ParityStep(x: nat)
    ensures Parity(x) == ((x % 2 == 1) != Parity(x / 2))
  {
  }

  lemma {:induction false} ParityXor(a: nat, b: nat)
    ensures Parity(Xor(a, b)) == (Parity(a) != Parity(b))
    decreases a + b
  {
    if a != 0 || b != 0 {
      var x := Xor(a, b);
      assert x / 2 == Xor(a / 2, b / 2);
      assert x % 2 == 1 <==> a % 2 != b % 2;
      ParityXor(a / 2, b / 2);
      ParityStep(x);
      ParityStep(a);
      ParityStep(b);
    }
  }

  /** The number with the given bits, most significant first. */
  function Value(bits: seq<bool>): nat {
    if bits == [] then 0 else 2 * Value(bits[..|bits| - 1]) + if bits[|bits| - 1] then 1 else 0
  }

  lemma {:induction false} ValueBits(bits: seq<bool>)
    ensures Within(Value(bits), |bits|)
    ensures forall k :: 0 <= k < |bits| ==> Bit(Value(bits), k) == bits[|bits| - 1 - k]
  {
    if bits == [] {
    } else {
      var init := bits[..|bits| - 1];
      ValueBits(init);
      assert Value(bits) / 2 == Value(init);
      forall k | 0 <= k < |bits|
        ensures Bit(Value(bits), k) == bits[|bits| - 1 - k]
      {
        if k > 0 {
          assert Bit(Value(bits), k) == Bit(Value(init), k - 1);
        }
      }
    }
  }
}
