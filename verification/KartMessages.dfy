/** The kart's ten messages: their descriptors, what comes back of them and how long they get. */
module KartMessages {
  import opened Bytes
  import opened Varint
  import opened Message
  import opened Wire
  import opened CodecTheorems
  import opened ScalarMessages
  import opened Descriptors
  import FieldInfo

  // The types of the fields in tag order. A float is a Fixed32: its 32-bit pattern.
  const ACT_SPEED := [Fixed32]
  const ACT_ACCELERATION := [Fixed32, Fixed32]
  const ACT_BRAKING := [Fixed32]
  const ACT_STEERING := [Fixed32, UVarint]
  const HEARTBEAT := [UVarint]
  const HEALTH_STATUS := [Bool, Bool, Bool, UVarint, UVarint, UVarint, UVarint, UVarint, UVarint, UVarint]
  const TARG_THROTTLE := [Fixed32]
  const TARG_BRAKING := [Fixed32]
  const TARG_STEERING := [Fixed32]
  const ORIN_COMPLETE := [Fixed32, Fixed32, Fixed32, UVarint, UVarint, Bool]

  predicate KartKind(k: Kind) { k.Fixed32? || k.UVarint? || k.Bool? }

  /** Singular fields of the types the kart uses, with the tags first, first + 1 and so on below 16. */
  predicate Kart(kinds: seq<Kind>, first: nat) {
    && 0 < first && first + |kinds| <= 16
    && forall i :: 0 <= i < |kinds| ==> KartKind(kinds[i])
  }

  function SizeOf(k: Kind): nat { if k.Bool? then 1 else 4 }

  function KartField(k: Kind, tag: U32): Field { Field(tag, Singular, k, SizeOf(k), 1) }

  function Fields(kinds: seq<Kind>, first: nat): (fs: seq<Field>)
    requires first + |kinds| <= 16
    ensures |fs| == |kinds| && forall i :: 0 <= i < |fs| ==> fs[i] == KartField(kinds[i], first + i)
  {
    if kinds == [] then [] else [KartField(kinds[0], first)] + Fields(kinds[1..], first + 1)
  }

  lemma {:induction false} KartFieldsOk(kinds: seq<Kind>, first: nat)
    requires Kart(kinds, first)
    ensures Scalar(Fields(kinds, first))
  {
    if kinds == [] {
    } else {
      KartFieldsOk(kinds[1..], first + 1);
      var fs := Fields(kinds, first);
      assert fs[1..] == Fields(kinds[1..], first + 1);
      forall i | 0 <= i < |fs|
        ensures ScalarField(fs[i])
      {
        assert KartKind(kinds[i]);
      }
    }
  }

  // ----- Packed descriptors

  /** Offset after the members so far, four-octet members aligned. */
  function Align(at: nat, k: Kind): nat { if k.Bool? then at else (at + 3) / 4 * 4 }

  /** One word a field: the generator's AUTO width of these types. */
  function Infos(kinds: seq<Kind>, first: nat, at: nat): (infos: seq<FieldInfo.Info>)
    requires Kart(kinds, first) && at + 8 * |kinds| < 0x1_0000
    ensures |infos| == |kinds|
    decreases kinds
  {
    if kinds == [] then []
    else
      var k, offset := kinds[0], Align(at, kinds[0]);
      [FieldInfo.Info(first, HTYPE_OPTIONAL + LTypeOf(k), offset, SizeOf(k), 0, 1, FieldInfo.W1)]
      + Infos(kinds[1..], first + 1, offset + SizeOf(k))
  }

  lemma {:induction false} InfosDescribe(kinds: seq<Kind>, first: nat, at: nat)
    requires Kart(kinds, first) && at + 8 * |kinds| < 0x100
    ensures forall i :: 0 <= i < |kinds| ==>
              && DescribesField(Infos(kinds, first, at)[i], Fields(kinds, first)[i])
              && FieldInfo.Fits(Infos(kinds, first, at)[i]) && FieldInfo.Representable(Infos(kinds, first, at)[i])
              && Infos(kinds, first, at)[i].width == FieldInfo.W1
    decreases kinds
  {
    if kinds == [] {
    } else {
      assert KartKind(kinds[0]);
      InfosDescribe(kinds[1..], first + 1, Align(at, kinds[0]) + SizeOf(kinds[0]));
    }
  }

  lemma {:induction false} OneWordEach(fs: seq<FieldInfo.Info>, i: nat)
    requires i <= |fs| && forall j :: 0 <= j < |fs| ==> fs[j].width == FieldInfo.W1
    ensures FieldInfo.WordIndex(fs, i) == i
  {
    if i == 0 {
    } else {
      OneWordEach(fs, i - 1);
    }
  }

  /** The packed descriptor of a kart message. */
  function KartDescriptor(kinds: seq<Kind>): Descriptor
    requires Kart(kinds, 1)
  {
    Descriptor(Infos(kinds, 1, 0), [])
  }

  /** It describes the message, so the iterator and the decoder work on it. */
  lemma KartDescribed(kinds: seq<Kind>)
    requires Kart(kinds, 1)
    ensures Describes(KartDescriptor(kinds), Fields(kinds, 1))
  {
    var infos, fs := Infos(kinds, 1, 0), Fields(kinds, 1);
    InfosDescribe(kinds, 1, 0);
    OneWordEach(infos, |infos|);
    hide Infos, Fields, FieldInfo.Fits, FieldInfo.Representable;
    forall i | 0 <= i < |fs|
      ensures infos[i].tag == 1 + i && !fs[i].kind.Submessage?
    {
      assert fs[i] == KartField(kinds[i], 1 + i) && KartKind(kinds[i]);
      assert DescribesField(infos[i], fs[i]);
    }
  }

  /** The word of a member: low tag bits, type octet, offset and size, each in its place. */
  function Word(k: Kind, tag: nat, offset: nat): nat {
    (if k.Fixed32? then 0x4000_1400 else if k.UVarint? then 0x4000_1200 else 0x1000_1000) + 4 * tag + 0x1_0000 * offset
  }

  lemma OneWord(k: Kind, tag: U32, offset: U32)
    requires KartKind(k) && 0 < tag < 16 && offset < 0x100
    ensures Word(k, tag, offset) < TWO_32
    ensures FieldInfo.Pack(FieldInfo.Info(tag, HTYPE_OPTIONAL + LTypeOf(k), offset, SizeOf(k), 0, 1, FieldInfo.W1)) ==
              [Word(k, tag, offset)]
  {
  }

  lemma WordsFrom(kinds: seq<Kind>, i: nat, at: nat)
    requires Kart(kinds, 1) && i < |kinds| && at + 8 * (|kinds| - i) < 0x100
    ensures var k, offset := kinds[i], Align(at, kinds[i]);
            && Kart(kinds[i..], i + 1) && Kart(kinds[i + 1..], i + 2) && Word(k, i + 1, offset) < TWO_32
            && FieldInfo.Words(Infos(kinds[i..], i + 1, at)) ==
                 [Word(k, i + 1, offset)] + FieldInfo.Words(Infos(kinds[i + 1..], i + 2, offset + SizeOf(k)))
  {
    var rest, k, offset := kinds[i + 1..], kinds[i], Align(at, kinds[i]);
    assert KartKind(k) && kinds[i..][1..] == rest;
    OneWord(k, i + 1, offset);
    hide Word, FieldInfo.Pack, Align;
    var infos := Infos(kinds[i..], i + 1, at);
    assert infos[1..] == Infos(rest, i + 2, offset + SizeOf(k));
  }

  lemma NoWords(kinds: seq<Kind>, at: nat)
    requires Kart(kinds, 1) && at < 0x100
    ensures kinds[0..] == kinds && |kinds[|kinds|..]| == 0
    ensures FieldInfo.Words(Infos(kinds[|kinds|..], |kinds| + 1, at)) == []
  {
  }

  /** The words of the messages with one float, and of the steering report. */
  lemma ShortDescriptors()
    ensures Kart(TARG_THROTTLE, 1) && FieldInfo.Words(KartDescriptor(TARG_THROTTLE).infos) == [0x4000_1404]
    ensures TARG_BRAKING == TARG_STEERING == ACT_SPEED == ACT_BRAKING == TARG_THROTTLE
    ensures Kart(ACT_STEERING, 1) && FieldInfo.Words(KartDescriptor(ACT_STEERING).infos) == [0x4000_1404, 0x4004_1208]
  {
    hide FieldInfo.Words, Infos;
    NoWords(TARG_THROTTLE, 4);
    WordsFrom(TARG_THROTTLE, 0, 0);
    NoWords(ACT_STEERING, 8);
    WordsFrom(ACT_STEERING, 1, 4);
    WordsFrom(ACT_STEERING, 0, 0);
  }

  /** The words of the complete command. */
  lemma CompleteDescriptor()
    ensures Kart(ORIN_COMPLETE, 1)
    ensures FieldInfo.Words(KartDescriptor(ORIN_COMPLETE).infos) ==
              [0x4000_1404, 0x4004_1408, 0x4008_140C, 0x400C_1210, 0x4010_1214, 0x1014_1018]
  {
    hide FieldInfo.Words, Infos;
    var kinds := ORIN_COMPLETE;
    NoWords(kinds, 21);
    WordsFrom(kinds, 5, 20);
    WordsFrom(kinds, 4, 16);
    WordsFrom(kinds, 3, 12);
    WordsFrom(kinds, 2, 8);
    WordsFrom(kinds, 1, 4);
    WordsFrom(kinds, 0, 0);
  }

  lemma HealthWords(kinds: seq<Kind>)
    requires Kart(kinds, 1) && |kinds| == 10
    requires forall i :: 0 <= i < 10 ==> if i < 3 then kinds[i].Bool? else kinds[i].UVarint?
    ensures FieldInfo.Words(Infos(kinds, 1, 0)) ==
              [0x1000_1004, 0x1001_1008, 0x1002_100C, 0x4004_1210, 0x4008_1214, 0x400C_1218, 0x4010_121C, 0x4014_1220,
               0x4018_1224, 0x401C_1228]
  {
    hide FieldInfo.Words, Infos, Kart;
    NoWords(kinds, 32);
    WordsFrom(kinds, 9, 28);
    WordsFrom(kinds, 8, 24);
    WordsFrom(kinds, 7, 20);
    WordsFrom(kinds, 6, 16);
    WordsFrom(kinds, 5, 12);
    WordsFrom(kinds, 4, 8);
    WordsFrom(kinds, 3, 3);
    WordsFrom(kinds, 2, 2);
    WordsFrom(kinds, 1, 1);
    WordsFrom(kinds, 0, 0);
  }

  /** The words of the health report: three flags and seven counts behind them, aligned. */
  lemma HealthDescriptor()
    ensures Kart(HEALTH_STATUS, 1)
    ensures FieldInfo.Words(KartDescriptor(HEALTH_STATUS).infos) ==
              [0x1000_1004, 0x1001_1008, 0x1002_100C, 0x4004_1210, 0x4008_1214, 0x400C_1218, 0x4010_121C, 0x4014_1220,
               0x4018_1224, 0x401C_1228]
  {
    hide FieldInfo.Words, Infos;
    HealthWords(HEALTH_STATUS);
  }

  // ----- Sizes

  /** A tag below 16 takes one octet, a float four, a 32-bit varint up to five, a bool one. */
  function MaxSize(kinds: seq<Kind>): nat {
    if kinds == [] then 0
    else (if kinds[0].Fixed32? then 5 else if kinds[0].UVarint? then 6 else 2) + MaxSize(kinds[1..])
  }

  /** The message with every bit set. */
  function Largest(kinds: seq<Kind>): (m: seq<Slot>)
    ensures |m| == |kinds|
  {
    if kinds == [] then [] else [One(Num(if kinds[0].Bool? then 1 else 0xFFFF_FFFF))] + Largest(kinds[1..])
  }

  lemma FullVarint()
    ensures |VarintBytes(0xFFFF_FFFF)| == 5
  {
    assert |VarintBytes(0xFFFF_FFFF / 0x80 / 0x80)| == 3 by {
      assert VarintBytes(0x3_FFFF / 0x80 / 0x80) == [0xF];
      assert |VarintBytes(0x3_FFFF / 0x80)| == 2;
    }
    assert |VarintBytes(0xFFFF_FFFF / 0x80)| == 4;
  }

  lemma VarintLength32(n: U32)
    ensures |VarintBytes(n)| <= 5
  {
    AboveChain(n);
    VarintBytesLength(n, 5);
  }

  lemma OneByteTag(tag: U32, wt: nat)
    requires tag < 16 && wt < 8
    ensures |TagBytes(tag, wt)| == 1
  {
  }

  lemma OneByteBool(n: nat)
    requires n < 2
    ensures |VarintBytes(n)| == 1
  {
  }

  lemma FieldSize(k: Kind, tag: U32, s: Slot)
    requires KartKind(k) && 0 < tag < 16 && TypedSlot(KartField(k, tag), s) && EncodeField(KartField(k, tag), s).Some?
    ensures |EncodeField(KartField(k, tag), s).value| <= MaxSize([k])
    ensures s == Largest([k])[0] ==> |EncodeField(KartField(k, tag), s).value| == MaxSize([k])
  {
    var f := KartField(k, tag);
    assert [k][1..] == [];
    OneByteTag(tag, WireType(k));
    hide TagBytes, VarintBytes;
    if s.v.n != 0 {
      if k.UVarint? {
        VarintLength32(s.v.n);
        FullVarint();
      } else if k.Bool? {
        OneByteBool(s.v.n);
      }
      assert EncodeValue(f, s.v) == Some(NumBytes(k, SizeOf(k), s.v.n));
    }
  }

  /** No message is longer than its size constant. */
  lemma {:induction false} SizeBound(kinds: seq<Kind>, first: nat, m: seq<Slot>)
    requires Kart(kinds, first) && TypedMsg(Fields(kinds, first), m) && Scalar(Fields(kinds, first))
    ensures EncodeMsg(Fields(kinds, first), m).Some?
    ensures |EncodeMsg(Fields(kinds, first), m).value| <= MaxSize(kinds)
    ensures m == Largest(kinds) ==> |EncodeMsg(Fields(kinds, first), m).value| == MaxSize(kinds)
    decreases kinds
  {
    ScalarEncodes(Fields(kinds, first), m);
    if kinds == [] {
    } else {
      var fs := Fields(kinds, first);
      KartFieldsOk(kinds[1..], first + 1);
      assert fs[1..] == Fields(kinds[1..], first + 1);
      assert KartKind(kinds[0]) && [kinds[0]][1..] == [];
      assert m == Largest(kinds) ==> m[1..] == Largest(kinds[1..]) && m[0] == Largest([kinds[0]])[0];
      FieldSize(kinds[0], first, m[0]);
      hide EncodeField, Fields, ScalarField;
      SizeBound(kinds[1..], first + 1, m[1..]);
    }
  }

  lemma {:induction false} LargestTyped(kinds: seq<Kind>, first: nat)
    requires Kart(kinds, first)
    ensures TypedMsg(Fields(kinds, first), Largest(kinds))
    decreases kinds
  {
    if kinds == [] {
    } else {
      assert KartKind(kinds[0]);
      LargestTyped(kinds[1..], first + 1);
      assert Fields(kinds, first)[1..] == Fields(kinds[1..], first + 1) && Largest(kinds)[1..] == Largest(kinds[1..]);
    }
  }

  /** The size constants are the exact maxima: an upper bound for every message, reached by one. */
  lemma MaxSizeExact(kinds: seq<Kind>, m: seq<Slot>)
    requires Kart(kinds, 1) && TypedMsg(Fields(kinds, 1), m)
    ensures FieldsOk(Fields(kinds, 1)) && TypedMsg(Fields(kinds, 1), Largest(kinds))
    ensures EncodeMsg(Fields(kinds, 1), m).Some? && |EncodeMsg(Fields(kinds, 1), m).value| <= MaxSize(kinds)
    ensures EncodeMsg(Fields(kinds, 1), Largest(kinds)).Some?
    ensures |EncodeMsg(Fields(kinds, 1), Largest(kinds)).value| == MaxSize(kinds)
  {
    KartFieldsOk(kinds, 1);
    LargestTyped(kinds, 1);
    hide Fields, Largest, EncodeMsg, MaxSize, ScalarField;
    SizeBound(kinds, 1, m);
    SizeBound(kinds, 1, Largest(kinds));
  }

  lemma {:induction false} MaxSizeConcat(a: seq<Kind>, b: seq<Kind>)
    ensures MaxSize(a + b) == MaxSize(a) + MaxSize(b)
  {
    if a == [] {
      assert a + b == b;
    } else {
      assert (a + b)[1..] == a[1..] + b;
      MaxSizeConcat(a[1..], b);
    }
  }

  lemma Two(a: Kind, b: Kind)
    ensures MaxSize([a, b]) == MaxSize([a]) + MaxSize([b])
    ensures MaxSize([a]) == if a.Fixed32? then 5 else if a.UVarint? then 6 else 2
    ensures MaxSize([b]) == if b.Fixed32? then 5 else if b.UVarint? then 6 else 2
  {
    assert [a, b][1..] == [b] && [a][1..] == [] && [b][1..] == [];
  }

  /** The ten size constants of the generated header. */
  lemma SizeConstants()
    ensures MaxSize(ACT_SPEED) == MaxSize(ACT_BRAKING) == 5
    ensures MaxSize(TARG_THROTTLE) == MaxSize(TARG_BRAKING) == MaxSize(TARG_STEERING) == 5
    ensures MaxSize(HEARTBEAT) == 6 && MaxSize(ACT_ACCELERATION) == 10 && MaxSize(ACT_STEERING) == 11
    ensures MaxSize(ORIN_COMPLETE) == 29 && MaxSize(HEALTH_STATUS) == 48
  {
    Two(Fixed32, Fixed32);
    Two(Fixed32, UVarint);
    Two(UVarint, Bool);
    Two(UVarint, UVarint);
    Two(Bool, Bool);
    Two(Bool, UVarint);
    MaxSizeConcat([Fixed32, Fixed32], [Fixed32, UVarint]);
    MaxSizeConcat([Fixed32, Fixed32] + [Fixed32, UVarint], [UVarint, Bool]);
    assert ORIN_COMPLETE == [Fixed32, Fixed32] + [Fixed32, UVarint] + [UVarint, Bool];
    MaxSizeConcat([Bool, Bool], [Bool, UVarint]);
    MaxSizeConcat([UVarint, UVarint], [UVarint, UVarint]);
    MaxSizeConcat([UVarint, UVarint] + [UVarint, UVarint], [UVarint, UVarint]);
    MaxSizeConcat([Bool, Bool] + [Bool, UVarint], [UVarint, UVarint] + [UVarint, UVarint] + [UVarint, UVarint]);
    assert HEALTH_STATUS ==
        [Bool, Bool] + [Bool, UVarint] + ([UVarint, UVarint] + [UVarint, UVarint] + [UVarint, UVarint]);
  }

  // ----- Round trip

  /** Numbers are their own canonical form. */
  lemma {:induction false} ScalarCanon(fs: seq<Field>, m: seq<Slot>)
    requires Scalar(fs) && TypedMsg(fs, m)
    ensures CanonMsg(fs, m) == m
  {
    forall i | 0 <= i < |fs|
      ensures CanonMsg(fs, m)[i] == m[i]
    {
      CanonAt(fs, m, i);
      assert ScalarField(fs[i]);
    }
  }

  lemma {:induction false} SmallSize(kinds: seq<Kind>)
    ensures MaxSize(kinds) <= 6 * |kinds|
  {
    if kinds == [] {
    } else {
      SmallSize(kinds[1..]);
    }
  }

  /** Every kart message comes back bit for bit, minus zero and the not-a-number patterns included. */
  lemma KartRoundTrip(kinds: seq<Kind>, m: seq<Slot>)
    requires Kart(kinds, 1) && TypedMsg(Fields(kinds, 1), m)
    ensures FieldsOk(Fields(kinds, 1)) && TypedMsg(Fields(kinds, 1), DefaultMsg(Fields(kinds, 1)))
    ensures EncodeMsg(Fields(kinds, 1), m).Some? && |EncodeMsg(Fields(kinds, 1), m).value| <= MaxSize(kinds)
    ensures DecodeMsg(Fields(kinds, 1), DefaultMsg(Fields(kinds, 1)), EncodeMsg(Fields(kinds, 1), m).value, false) ==
              Ok(m, [])
  {
    var fs := Fields(kinds, 1);
    KartFieldsOk(kinds, 1);
    SizeBound(kinds, 1, m);
    SmallSize(kinds);
    ScalarCanon(fs, m);
    hide Fields, EncodeMsg, DecodeMsg, CanonMsg, Scalar;
    RoundTrip(fs, m, [], false, false);
    assert EncodeMsg(fs, m).value + [] == EncodeMsg(fs, m).value;
  }

  lemma KartMessagesQualify()
    ensures Kart(ACT_SPEED, 1) && Kart(ACT_ACCELERATION, 1) && Kart(ACT_BRAKING, 1) && Kart(ACT_STEERING, 1)
    ensures Kart(HEARTBEAT, 1) && Kart(HEALTH_STATUS, 1) && Kart(ORIN_COMPLETE, 1)
    ensures Kart(TARG_THROTTLE, 1) && Kart(TARG_BRAKING, 1) && Kart(TARG_STEERING, 1)
  {
  }
}
