/**
 * The decoder on an input stream. Every routine is proved to compute what the wire format says of the
 * bytes left, to stop where it says, to read inside the buffer only and to keep count of what is left.
 */
module InputStream {
  import opened Bytes
  import opened Varint
  import opened Wire

  /** A routine's outcome is what the format says: both fail, or the same value is read and the same bytes are left. */
  predicate Agrees<T(==)>(spec: Parsed<T>, ok: bool, value: T, rest: seq<Byte>) {
    (ok <==> spec.Ok?) && (ok ==> value == spec.value && rest == spec.rest)
  }

  /** The same for routines that only move on. */
  predicate Moves<T>(spec: Parsed<T>, ok: bool, rest: seq<Byte>) {
    (ok <==> spec.Ok?) && (ok ==> rest == spec.rest)
  }

  /**
   * Accounting: a routine moves on from pos0 to pos1 and takes what it moves over from the bytes
   * left, so the sum stays; if it fails inside a substream the sum may only be smaller.
   */
  predicate Advanced(pos0: nat, left0: nat, pos1: nat, left1: nat, ok: bool) {
    pos0 <= pos1 && pos1 + left1 <= pos0 + left0 && (ok ==> pos1 + left1 == pos0 + left0)
  }

  // ----- The loops

  /** No byte before k ends the varint. */
  predicate Continues(s: seq<Byte>, k: nat) {
    k <= |s| && forall j :: 0 <= j < k ==> s[j] >= 0x80
  }

  predicate EndsAt(s: seq<Byte>, k: nat) {
    0 < k <= |s| && Continues(s, k - 1) && s[k - 1] < 0x80
  }

  lemma Goes(s: seq<Byte>, k: nat)
    requires k < |s| && Continues(s, k)
    ensures if s[k] >= 0x80 then Continues(s, k + 1) else EndsAt(s, k + 1)
    ensures s[k..][0] == s[k] && s[k..][1..] == s[k + 1..]
  {
  }

  lemma GroupsStart(s: seq<Byte>)
    ensures Base128(s[..0]) == 0 && s[0..] == s
  {
  }

  lemma NeverEnds(s: seq<Byte>)
    requires Continues(s, |s|)
    ensures DecodeVarint(s).Fail? && DecodeVarint32(s).Fail? && SkipVarint(s).Fail?
  {
  }

  lemma LengthIs(s: seq<Byte>, k: nat)
    requires EndsAt(s, k)
    ensures VarintLength(s) == k
  {
    var n := VarintLength(s);
    assert n > 0;
    assert n >= k;
  }

  lemma NinePowers()
    ensures Pow128(9) == 0x8000_0000_0000_0000
  {
    assert Pow128(4) == 0x1000_0000;
    assert Pow128(5) == 0x8_0000_0000;
    assert Pow128(6) == 0x400_0000_0000;
    assert Pow128(7) == 0x2_0000_0000_0000;
    assert Pow128(8) == 0x100_0000_0000_0000;
  }

  lemma {:induction false} Pow128Monotone(j: nat, k: nat)
    requires j <= k
    ensures Pow128(j) <= Pow128(k)
  {
    if j < k {
      Pow128Monotone(j, k - 1);
    }
  }

  /** Reading byte k extends the groups read and the value they stand for. */
  lemma GroupsStep(s: seq<Byte>, k: nat)
    requires k < |s|
    ensures Base128(s[..k + 1]) == Base128(s[..k]) + s[k] % 0x80 * Pow128(k)
    ensures k <= 8 || (k == 9 && s[k] < 2) ==> Base128(s[..k + 1]) < TWO_64
  {
    assert s[..k + 1] == s[..k] + [s[k]];
    Base128Snoc(s[..k], s[k]);
    Base128Bound(s[..k + 1]);
    Base128Bound(s[..k]);
    NinePowers();
    if k <= 8 {
      Pow128Monotone(k + 1, 9);
    }
    hide Base128, Pow128;
  }

  lemma TooBig(s: seq<Byte>, k: nat)
    requires k == 9 < |s| && Continues(s, k) && s[k] >= 2
    ensures DecodeVarint(s).Fail?
  {
    var n := VarintLength(s);
    if n == 10 {
      Base128Above(s[..10], 9);
      assert s[..10][9..] == [s[9]] && [s[9]][1..] == [];
      Fits64(Base128(s[..10]));
    } else {
      assert n == 0 || n > 10;
    }
  }

  lemma Ends(s: seq<Byte>, k: nat)
    requires k <= 10 && EndsAt(s, k) && Base128(s[..k]) < TWO_64
    ensures DecodeVarint(s) == Ok(Base128(s[..k]), s[k..])
  {
    LengthIs(s, k);
  }

  // ----- The 32-bit loop

  /** The low 32 bits of the groups read. */
  function Result32(s: seq<Byte>, k: nat): U32
    requires k <= |s|
  {
    Base128(s[..k]) % TWO_32
  }

  predicate TolerableByte(s: seq<Byte>, j: nat)
    requires 5 <= j < |s|
  {
    s[j] % 0x80 == 0 || (Result32(s, 5) >= 0x8000_0000 && s[j] == if j < 9 then 0xFF else 0x01)
  }

  /** The groups read pass the checks of the 32-bit decoder. */
  predicate Tolerated(s: seq<Byte>, k: nat) {
    && k <= |s|
    && (k >= 5 ==> s[4] % 0x80 < 0x10 || s[4] % 0x80 >= 0x78)
    && forall j :: 5 <= j < k ==> TolerableByte(s, j)
  }

  lemma FirstGroup(s: seq<Byte>)
    requires |s| > 0
    ensures Result32(s, 1) == s[0] % 0x80 && Tolerated(s, 1)
    ensures s[0] >= 0x80 ==> Continues(s, 1)
  {
    assert s[..1] == [s[0]] && [s[0]][1..] == [];
    assert Base128(s[..1]) == s[0] % 0x80;
  }

  lemma FourPowers()
    ensures Pow128(1) == 0x80 && Pow128(2) == 0x4000 && Pow128(3) == 0x20_0000 && Pow128(4) == 0x1000_0000
    ensures Pow128(5) == 0x8_0000_0000
  {
  }

  lemma LowGroup(s: seq<Byte>, k: nat)
    requires k < 4 && k < |s|
    ensures Result32(s, k + 1) == Result32(s, k) + s[k] % 0x80 * Pow128(k)
  {
    assert s[..k + 1] == s[..k] + [s[k]];
    Base128Snoc(s[..k], s[k]);
    Base128Bound(s[..k + 1]);
    Base128Bound(s[..k]);
    FourPowers();
    Pow128Monotone(k + 1, 4);
    Pow128Monotone(k, 4);
    hide Base128, Pow128;
  }

  lemma FifthGroup(a: nat, x: nat)
    requires a < 0x1000_0000
    ensures (a + x * 0x1000_0000) % TWO_32 == a + x % 0x10 * 0x1000_0000
  {
  }

  lemma FourthGroup(s: seq<Byte>)
    requires 4 < |s|
    ensures Result32(s, 5) == Result32(s, 4) + (s[4] as int) % 0x10 * 0x1000_0000
  {
    assert s[..5] == s[..4] + [s[4]];
    Base128Snoc(s[..4], s[4]);
    Base128Bound(s[..4]);
    FourPowers();
    FifthGroup(Base128(s[..4]), s[4] % 0x80);
    assert s[4] % 0x80 % 0x10 == s[4] % 0x10;
  }

  /** From 128^5 on, powers are multiples of 2^32. */
  lemma {:induction false} HighPower(k: nat)
    requires k >= 5
    ensures Pow128(k) % TWO_32 == 0
  {
    if k > 5 {
      HighPower(k - 1);
    } else {
      FourPowers();
    }
  }

  lemma MulAssociates(b: nat, q: nat)
    ensures b * (TWO_32 * q) == TWO_32 * (b * q)
  {
  }

  lemma AddMultipleOf(a: nat, q: nat)
    ensures (a + TWO_32 * q) % TWO_32 == a % TWO_32
  {
  }

  lemma AddMultiple(a: nat, b: nat, p: nat)
    requires p % TWO_32 == 0
    ensures (a + b * p) % TWO_32 == a % TWO_32
  {
    var q := p / TWO_32;
    assert p == TWO_32 * q;
    MulAssociates(b, q);
    AddMultipleOf(a, b * q);
  }

  lemma {:induction false} SettledResult(s: seq<Byte>, j: nat, k: nat)
    requires 5 <= j <= k <= |s|
    ensures Result32(s, k) == Result32(s, j)
  {
    if j < k {
      SettledResult(s, j, k - 1);
      assert s[..k] == s[..k - 1] + [s[k - 1]];
      Base128Snoc(s[..k - 1], s[k - 1]);
      HighPower(k - 1);
      AddMultiple(Base128(s[..k - 1]), s[k - 1] % 0x80, Pow128(k - 1));
    }
  }

  /** What byte k does to the result and to the checks, by the bit position it goes to. */
  lemma GroupsStep32(s: seq<Byte>, k: nat, bitpos: nat, result: U32)
    requires 0 < k < |s| && Tolerated(s, k) && bitpos == 7 * k && result == Result32(s, k)
    ensures k <= 9 <==> bitpos < 64
    ensures bitpos < 28 ==> Tolerated(s, k + 1) && Result32(s, k + 1) == result + s[k] % 0x80 * Pow128(bitpos / 7)
    ensures bitpos == 28 ==> Tolerated(s, k + 1) == (s[k] % 0x80 < 0x10 || s[k] % 0x80 >= 0x78)
    ensures bitpos == 28 ==> Result32(s, k + 1) == result + (s[k] as int) % 0x10 * 0x1000_0000
    ensures bitpos > 28 ==> bitpos >= 32 && Result32(s, k + 1) == result
    ensures bitpos > 28 ==> Tolerated(s, k + 1) ==
                              (|| s[k] % 0x80 == 0
                               || (result >= 0x8000_0000 && s[k] == if bitpos < 63 then 0xFF else 0x01))
  {
    if k < 4 {
      LowGroup(s, k);
    } else if k == 4 {
      FourthGroup(s);
    } else {
      SettledResult(s, 5, k);
      SettledResult(s, 5, k + 1);
      hide Result32;
      assert Tolerated(s, k + 1) == TolerableByte(s, k);
    }
  }

  /** On whole varints the loop's checks are the format's. */
  lemma ToleratedIsFits32(s: seq<Byte>, n: nat)
    requires n <= |s|
    ensures Fits32(s[..n]) <==> Tolerated(s, n)
  {
    var w := s[..n];
    if n >= 5 {
      SettledResult(s, 5, n);
      assert forall j :: 5 <= j < n ==>
          (IsSignByte(w, j) <==> Result32(s, 5) >= 0x8000_0000 && s[j] == if j < 9 then 0xFF else 0x01);
      hide Result32, IsSignByte;
      assert forall j :: 5 <= j < n ==> w[j] == s[j];
      if Tolerated(s, n) {
        forall j | 5 <= j < n
          ensures w[j] % 0x80 == 0 || IsSignByte(w, j)
        {
          assert TolerableByte(s, j);
        }
      }
    }
  }

  lemma NotTolerated(s: seq<Byte>, k: nat)
    requires k < |s| && Continues(s, k) && (k >= 10 || !Tolerated(s, k + 1))
    ensures DecodeVarint32(s).Fail?
  {
    var n := VarintLength(s);
    assert n == 0 || n > k;
    if n != 0 {
      ToleratedIsFits32(s, n);
      hide Fits32, TolerableByte;
    }
  }

  lemma Ends32(s: seq<Byte>, k: nat)
    requires k <= 10 && EndsAt(s, k) && Tolerated(s, k)
    ensures DecodeVarint32(s) == Ok(Result32(s, k), s[k..])
  {
    LengthIs(s, k);
    ToleratedIsFits32(s, k);
  }

  // ----- The stream

  class IStream {
    const buf: seq<Byte>
    var pos: nat
    var bytesLeft: nat

    ghost predicate Valid()
      reads this
    {
      pos + bytesLeft <= |buf|
    }

    ghost function Remaining(): (s: seq<Byte>)
      requires Valid()
      reads this
      ensures |s| == bytesLeft
    {
      buf[pos..pos + bytesLeft]
    }

    /** Where the stream must stop: constant while it is read. */
    ghost function End(): nat
      reads this
    {
      pos + bytesLeft
    }

    /** pb_istream_from_buffer; the buffer may be part of a larger one. */
    constructor (data: seq<Byte>, start: nat, msglen: nat)
      requires start + msglen <= |data|
      ensures Valid() && buf == data && pos == start && bytesLeft == msglen
    {
      buf, pos, bytesLeft := data, start, msglen;
    }

    /** pb_readbyte */
    method ReadByte() returns (ok: bool, byte: Byte)
      requires Valid()
      modifies this
      ensures Valid() && End() == old(End())
      ensures ok <==> old(bytesLeft) > 0
      ensures ok ==> byte == old(Remaining())[0] && Remaining() == old(Remaining())[1..]
      ensures !ok ==> Remaining() == old(Remaining())
    {
      if bytesLeft == 0 {
        return false, 0;
      }
      byte := buf[pos];
      pos := pos + 1;
      bytesLeft := bytesLeft - 1;
      ok := true;
    }

    /** pb_read, into a buffer or, to skip, into nothing. */
    method Read(count: nat) returns (ok: bool, data: seq<Byte>)
      requires Valid()
      modifies this
      ensures Valid() && End() == old(End())
      ensures Agrees(ReadBytes(old(Remaining()), count), ok, data, Remaining())
      ensures !ok ==> Remaining() == old(Remaining())
    {
      ghost var s := Remaining();
      assert s[..0] == [] && s[0..] == s;
      if count == 0 {
        return true, [];
      }
      if bytesLeft < count {
        return false, [];
      }
      data := buf[pos..pos + count];
      pos := pos + count;
      bytesLeft := bytesLeft - count;
      assert data == s[..count] && Remaining() == s[count..];
      ok := true;
    }

    /** pb_decode_varint: groups are collected low first; the tenth byte may only be 0 or 1. */
    method ReadVarint() returns (ok: bool, value: U64)
      requires Valid()
      modifies this
      ensures Valid() && End() == old(End()) && bytesLeft <= old(bytesLeft)
      ensures Agrees(DecodeVarint(old(Remaining())), ok, value, Remaining())
    {
      ghost var s := Remaining();
      ghost var k: nat := 0;
      var bitpos: nat, result: nat, more := 0, 0, true;
      ok, value := false, 0;
      GroupsStart(s);
      hide *;
      while more
        invariant Valid() && End() == old(End()) && k <= |s| && Remaining() == s[k..] && bitpos == 7 * k
        invariant result == Base128(s[..k]) && result < TWO_64
        invariant if more then k <= 9 && Continues(s, k) else k <= 10 && EndsAt(s, k)
        decreases more, bytesLeft
      {
        var got, byte := ReadByte();
        if !got {
          NeverEnds(s);
          return;
        }
        Goes(s, k);
        GroupsStep(s, k);
        if bitpos >= 63 && byte >= 2 {
          TooBig(s, k);
          return;
        }
        result := result + byte % 0x80 * Pow128(bitpos / 7);
        bitpos := bitpos + 7;
        k := k + 1;
        more := byte >= 0x80;
      }
      value := result;
      ok := true;
      Ends(s, k);
    }

    /**
     * pb_decode_varint32_eof: a first byte without continuation bit is the value.
     * At the end of the stream it says so.
     */
    method ReadVarint32Eof() returns (ok: bool, value: U32, eof: bool)
      requires Valid()
      modifies this
      ensures Valid() && End() == old(End()) && bytesLeft <= old(bytesLeft)
      ensures Agrees(DecodeVarint32(old(Remaining())), ok, value, Remaining())
      ensures eof <==> old(bytesLeft) == 0
    {
      ghost var s := Remaining();
      GroupsStart(s);
      var got, byte := ReadByte();
      if !got {
        NeverEnds(s);
        return false, 0, bytesLeft == 0;
      }
      FirstGroup(s);
      hide VarintLength, Base128, DecodeVarint32, Result32, Fits32, Tolerated, TolerableByte;
      eof := false;
      if byte < 0x80 {
        Ends32(s, 1);
        ok, value := true, byte;
      } else {
        ok, value := ReadMultibyte32(byte % 0x80, s);
      }
    }

    /** Its multibyte case: group 4 keeps four bits, later ones must be what a sign extension leaves. */
    method ReadMultibyte32(first: U32, ghost s: seq<Byte>) returns (ok: bool, value: U32)
      requires Valid() && |s| > 0 && Remaining() == s[1..]
      requires first == Result32(s, 1) && Tolerated(s, 1) && Continues(s, 1)
      modifies this
      ensures Valid() && End() == old(End()) && bytesLeft <= old(bytesLeft)
      ensures Agrees(DecodeVarint32(s), ok, value, Remaining())
    {
      hide VarintLength, Base128, Pow128, DecodeVarint32, Result32, Fits32, Tolerated, TolerableByte, Continues, EndsAt;
      var result: nat, bitpos: nat, more := first, 7, true;
      ghost var k: nat := 1;
      ok, value := false, 0;
      while more
        invariant Valid() && End() == old(End()) && 0 < k <= |s| && Remaining() == s[k..] && bitpos == 7 * k
        invariant result == Result32(s, k) && Tolerated(s, k)
        invariant more ==> Continues(s, k)
        invariant !more ==> k <= 10 && EndsAt(s, k)
        decreases more, bytesLeft
      {
        var got, byte := ReadByte();
        if !got {
          NeverEnds(s);
          return;
        }
        Goes(s, k);
        GroupsStep32(s, k, bitpos, result);
        if bitpos >= 32 {
          var signExtension := if bitpos < 63 then 0xFF else 0x01;
          var validExtension := byte % 0x80 == 0 || (result >= 0x8000_0000 && byte == signExtension);
          if bitpos >= 64 || !validExtension {
            NotTolerated(s, k);
            return;
          }
        } else if bitpos == 28 {
          if byte % 0x80 >= 0x10 && byte % 0x80 < 0x78 {
            NotTolerated(s, k);
            return;
          }
          result := result + byte % 0x10 * 0x1000_0000;
        } else {
          result := result + byte % 0x80 * Pow128(bitpos / 7);
        }
        bitpos := bitpos + 7;
        k := k + 1;
        more := byte >= 0x80;
      }
      Ends32(s, k);
      value := result;
      ok := true;
    }

    /** pb_decode_varint32 */
    method ReadVarint32() returns (ok: bool, value: U32)
      requires Valid()
      modifies this
      ensures Valid() && End() == old(End()) && bytesLeft <= old(bytesLeft)
      ensures Agrees(DecodeVarint32(old(Remaining())), ok, value, Remaining())
    {
      var atEnd;
      ok, value, atEnd := ReadVarint32Eof();
    }

    /** pb_decode_tag */
    method ReadTag() returns (ok: bool, wireType: nat, tag: U32, eof: bool)
      requires Valid()
      modifies this
      ensures Valid() && End() == old(End()) && bytesLeft <= old(bytesLeft)
      ensures Moves(DecodeVarint32(old(Remaining())), ok, Remaining())
      ensures ok ==> tag == DecodeVarint32(old(Remaining())).value / 8
      ensures ok ==> wireType == DecodeVarint32(old(Remaining())).value % 8
      ensures eof <==> old(bytesLeft) == 0
    {
      var temp;
      ok, temp, eof := ReadVarint32Eof();
      wireType, tag := temp % 8, temp / 8;
    }

    /** pb_skip_varint */
    method SkipOverVarint() returns (ok: bool)
      requires Valid()
      modifies this
      ensures Valid() && End() == old(End()) && bytesLeft <= old(bytesLeft)
      ensures Moves(SkipVarint(old(Remaining())), ok, Remaining())
    {
      ghost var s := Remaining();
      ghost var k: nat := 0;
      GroupsStart(s);
      var more := true;
      ok := false;
      while more
        invariant Valid() && End() == old(End()) && k <= |s| && Remaining() == s[k..]
        invariant if more then Continues(s, k) else EndsAt(s, k)
        decreases more, bytesLeft
      {
        var got, bytes := Read(1);
        if !got {
          NeverEnds(s);
          return;
        }
        Goes(s, k);
        k := k + 1;
        more := bytes[0] >= 0x80;
      }
      LengthIs(s, k);
      ok := true;
    }

    /** pb_skip_string */
    method SkipString() returns (ok: bool)
      requires Valid()
      modifies this
      ensures Valid() && End() == old(End()) && bytesLeft <= old(bytesLeft)
      ensures Moves(DecodeDelimited(old(Remaining())), ok, Remaining())
    {
      hide DecodeVarint32;
      var length;
      ok, length := ReadVarint32();
      if ok {
        var skipped;
        ok, skipped := Read(length);
      }
    }

    /** pb_skip_field */
    method SkipOverField(wireType: nat) returns (ok: bool)
      requires Valid()
      modifies this
      ensures Valid() && End() == old(End()) && bytesLeft <= old(bytesLeft)
      ensures Moves(SkipField(wireType, old(Remaining())), ok, Remaining())
    {
      hide SkipVarint, DecodeDelimited;
      var skipped;
      if wireType == WT_VARINT {
        ok := SkipOverVarint();
      } else if wireType == WT_64BIT {
        ok, skipped := Read(8);
      } else if wireType == WT_STRING {
        ok := SkipString();
      } else if wireType == WT_32BIT {
        ok, skipped := Read(4);
      } else {
        ok := false;
      }
    }

    /**
     * pb_make_string_substream: the substream takes over the announced bytes, which the parent no
     * longer counts as its own; together they are to read what the parent alone had to.
     */
    method MakeSubstream() returns (ok: bool, substream: IStream)
      requires Valid()
      modifies this
      ensures Valid() && substream.Valid() && fresh(substream) && substream.buf == buf
      ensures Advanced(old(pos), old(bytesLeft), pos, bytesLeft, false)
      ensures ok <==> DecodeDelimited(old(Remaining())).Ok?
      ensures ok ==> substream.Remaining() == DecodeDelimited(old(Remaining())).value
      ensures ok ==> substream.bytesLeft < old(bytesLeft)
      ensures ok ==> substream.pos == pos && substream.End() + bytesLeft == old(End())
      ensures ok ==> buf[substream.End()..old(End())] == DecodeDelimited(old(Remaining())).rest
    {
      hide DecodeVarint32;
      var size;
      ok, size := ReadVarint32();
      substream := new IStream(buf, pos, bytesLeft);
      if ok {
        if substream.bytesLeft < size {
          return false, substream;
        }
        ghost var rest := Remaining();
        substream.bytesLeft := size;
        bytesLeft := bytesLeft - size;
        assert rest[..size] == substream.Remaining();
        assert rest[size..] == buf[substream.End()..old(End())];
      }
    }

    /** pb_close_string_substream: what the substream left unread is skipped, and the parent goes on after it. */
    method CloseSubstream(substream: IStream) returns (ok: bool)
      requires Valid() && substream.Valid() && substream != this && substream.buf == buf
      requires substream.End() + bytesLeft <= |buf|
      modifies this, substream
      ensures ok && Valid() && bytesLeft == old(bytesLeft) && pos == old(substream.End())
      ensures substream.Valid() && substream.bytesLeft == 0 && substream.End() == old(substream.End())
    {
      if substream.bytesLeft > 0 {
        var read, skipped := substream.Read(substream.bytesLeft);
        assert read;
      }
      pos := substream.pos;
      ok := true;
    }
  }
}
