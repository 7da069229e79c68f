/** Packed descriptors of whole message trees: what the tables the decoder walks say of the messages they stand for. */
module Descriptors {
  import opened Bytes
  import opened Message
  import opened Wire
  import FieldInfo

  /** pb_msgdesc_t: the fields as packed, and the descriptors of those that are submessages, in order. */
  datatype Descriptor = Descriptor(infos: seq<FieldInfo.Info>, subs: seq<Descriptor>)

  // The scalar types and repetitions of the type octet; static allocation adds nothing to it.
  const LTYPE_BOOL := 0x00
  const LTYPE_VARINT := 0x01
  const LTYPE_UVARINT := 0x02
  const LTYPE_SVARINT := 0x03
  const LTYPE_FIXED32 := 0x04
  const LTYPE_FIXED64 := 0x05
  const LTYPE_LAST_PACKABLE := 0x05
  const LTYPE_BYTES := 0x06
  const LTYPE_STRING := 0x07
  const LTYPE_SUBMESSAGE := 0x08
  const HTYPE_REQUIRED := 0x00
  const HTYPE_OPTIONAL := 0x10
  const HTYPE_REPEATED := 0x20

  function LTypeOf(k: Kind): nat {
    match k
    case Bool => LTYPE_BOOL
    case Varint => LTYPE_VARINT
    case UVarint => LTYPE_UVARINT
    case SVarint => LTYPE_SVARINT
    case Fixed32 => LTYPE_FIXED32
    case Fixed64 => LTYPE_FIXED64
    case Bytes => LTYPE_BYTES
    case String => LTYPE_STRING
    case Submessage(_) => LTYPE_SUBMESSAGE
  }

  /** A singular field is an optional one without a has flag. */
  function HTypeOf(r: Rule): nat {
    match r
    case Required => HTYPE_REQUIRED
    case Singular | Optional => HTYPE_OPTIONAL
    case Repeated => HTYPE_REPEATED
  }

  predicate DescribesField(info: FieldInfo.Info, f: Field) {
    && info.tag == f.tag
    && info.typ == HTypeOf(f.rule) + LTypeOf(f.kind)
    && (info.sizeOffset != 0 <==> f.rule.Optional? || f.rule.Repeated?)
    && info.dataSize == f.dataSize
    && (f.rule.Repeated? ==> info.arraySize == f.arraySize)
  }

  predicate Describes(d: Descriptor, fs: seq<Field>)
    decreases d
  {
    && FieldInfo.WellFormed(d.infos)
    && |d.infos| == |fs|
    && (forall i :: 0 <= i < |fs| ==> DescribesField(d.infos[i], fs[i]))
    && (forall i :: 0 <= i < |fs| && fs[i].kind.Submessage? ==>
          && FieldInfo.SubmessageIndex(d.infos, i) < |d.subs|
          && Describes(d.subs[FieldInfo.SubmessageIndex(d.infos, i)], fs[i].kind.fields))
  }

  /** The octet's parts are the field's own. */
  lemma TypeOctet(info: FieldInfo.Info, f: Field)
    requires DescribesField(info, f)
    ensures FieldInfo.LType(info.typ) == LTypeOf(f.kind) && FieldInfo.HType(info.typ) == HTypeOf(f.rule)
    ensures !FieldInfo.IsExtension(info.typ) && (FieldInfo.IsSubmessage(info.typ) <==> f.kind.Submessage?)
    ensures FieldInfo.IsRequired(info.typ) <==> f.rule.Required?
  {
  }

  /** The type octet by number: repetition in the high half, type in the low half. */
  lemma TypeNumbers(info: FieldInfo.Info, f: Field)
    requires DescribesField(info, f)
    ensures info.typ / 0x10 == match f.rule case Required => 0 case Repeated => 2 case _ => 1
    ensures f.kind.Bool? ==> info.typ % 0x10 == 0
    ensures f.kind.Varint? ==> info.typ % 0x10 == 1
    ensures f.kind.UVarint? ==> info.typ % 0x10 == 2
    ensures f.kind.SVarint? ==> info.typ % 0x10 == 3
    ensures f.kind.Fixed32? ==> info.typ % 0x10 == 4
    ensures f.kind.Fixed64? ==> info.typ % 0x10 == 5
    ensures f.kind.Bytes? ==> info.typ % 0x10 == 6
    ensures f.kind.String? ==> info.typ % 0x10 == 7
    ensures f.kind.Submessage? ==> info.typ % 0x10 == 8
  {
  }

  lemma DescribedAt(d: Descriptor, fs: seq<Field>, i: nat)
    requires Describes(d, fs) && i < |fs|
    ensures |d.infos| == |fs| && DescribesField(d.infos[i], fs[i])
  {
  }

  lemma DescribedTag(d: Descriptor, fs: seq<Field>, i: nat)
    requires Describes(d, fs) && i < |fs|
    ensures |d.infos| == |fs| && d.infos[i].tag == fs[i].tag
  {
  }

  /** No field is an extension, so searching the packed descriptor for a tag is searching the fields. */
  lemma SearchIsIndexOf(d: Descriptor, fs: seq<Field>, tag: U32)
    requires Describes(d, fs)
    ensures FieldInfo.HasTag(d.infos, tag) <==> IndexOf(fs, tag).Some?
  {
    assert |d.infos| == |fs|;
    hide Describes, DescribesField;
    if HasTag(fs, tag) {
      var i :| 0 <= i < |fs| && fs[i].tag == tag;
      DescribedAt(d, fs, i);
      TypeOctet(d.infos[i], fs[i]);
      assert FieldInfo.Matches(d.infos, i, tag) by { DescribedTag(d, fs, i); }
    }
    if FieldInfo.HasTag(d.infos, tag) {
      var i: nat :| FieldInfo.Matches(d.infos, i, tag);
      DescribedTag(d, fs, i);
    }
  }

  lemma FoundAt(d: Descriptor, fs: seq<Field>, tag: U32, i: nat)
    requires Describes(d, fs) && i < |fs| && fs[i].tag == tag
    ensures IndexOf(fs, tag) == Some(i)
  {
    assert HasTag(fs, tag);
    var j := IndexOf(fs, tag).value;
    assert d.infos[i].tag == d.infos[j].tag;
  }

  lemma {:induction false} RequiredRank(d: Descriptor, fs: seq<Field>, i: nat)
    requires Describes(d, fs) && i <= |fs|
    ensures FieldInfo.RequiredIndex(d.infos, i) == RequiredBefore(fs, i)
  {
    if i == 0 {
    } else {
      DescribedAt(d, fs, i - 1);
      TypeOctet(d.infos[i - 1], fs[i - 1]);
      hide Describes, DescribesField, FieldInfo.IsRequired;
      RequiredRank(d, fs, i - 1);
    }
  }

  // ----- What the iterator shows

  /** What the iterator shows of a field while it stands on it. */
  predicate Shows(shown: FieldInfo.Loaded, f: Field) {
    && shown.tag == f.tag
    && FieldInfo.LType(shown.typ) == LTypeOf(f.kind)
    && FieldInfo.HType(shown.typ) == HTypeOf(f.rule)
    && (shown.sizeOffset != 0 <==> f.rule.Optional? || f.rule.Repeated?)
    && shown.dataSize == f.dataSize
    && (f.rule.Repeated? ==> shown.arraySize == f.arraySize)
  }

  lemma DescribedCount(d: Descriptor, fs: seq<Field>)
    requires Describes(d, fs)
    ensures |d.infos| == |fs| && FieldInfo.WellFormed(d.infos)
  {
  }

  /** The iterator on field k shows it, its rank among the required fields and its descriptor if it is a message. */
  lemma ShownByIterator(iter: FieldInfo.FieldIter, d: Descriptor, fs: seq<Field>, k: nat)
    requires iter.Valid() && iter.fields == d.infos && Describes(d, fs) && iter.index == k < |fs|
    ensures Shows(iter.current, fs[k])
    ensures iter.requiredFieldIndex == RequiredBefore(fs, k)
    ensures fs[k].kind.Submessage? ==>
              iter.submessageIndex < |d.subs| && Describes(d.subs[iter.submessageIndex], fs[k].kind.fields)
  {
    DescribedAt(d, fs, k);
    TypeOctet(d.infos[k], fs[k]);
    RequiredRank(d, fs, k);
    assert iter.current == FieldInfo.Own(d.infos[k]);
  }

  lemma IterNotEmpty(iter: FieldInfo.FieldIter)
    requires iter.Valid() && |iter.fields| > 0
    ensures iter.fieldCount == |iter.fields|
  {
  }

  // ----- The bit mask of required fields

  /** w | 1 << k */
  function SetBit(w: nat, k: nat): nat {
    if k == 0 then w / 2 * 2 + 1 else w % 2 + 2 * SetBit(w / 2, k - 1)
  }

  /** n one bits: ~0 for 32, and ~0 >> (32 - n) for fewer. */
  function Ones(n: nat): nat {
    if n == 0 then 0 else 1 + 2 * Ones(n - 1)
  }

  /** The field with r required fields before it. */
  function RequiredField(fs: seq<Field>, r: nat, n: nat): (i: nat)
    requires n <= |fs| && r < RequiredBefore(fs, n)
    ensures i < n && fs[i].rule.Required? && RequiredBefore(fs, i) == r
  {
    if fs[n - 1].rule.Required? && RequiredBefore(fs, n - 1) == r then n - 1 else RequiredField(fs, r, n - 1)
  }

  lemma {:induction false} RankMonotone(fs: seq<Field>, i: nat, j: nat)
    requires i < j <= |fs| && fs[i].rule.Required?
    ensures RequiredBefore(fs, i) < RequiredBefore(fs, j)
  {
    if i + 1 < j {
      RankMonotone(fs, i, j - 1);
    }
  }

  lemma RankInverse(fs: seq<Field>, i: nat)
    requires i < |fs| && fs[i].rule.Required?
    ensures RequiredBefore(fs, i) < RequiredBefore(fs, |fs|)
    ensures RequiredField(fs, RequiredBefore(fs, i), |fs|) == i
  {
    RankMonotone(fs, i, |fs|);
    var j := RequiredField(fs, RequiredBefore(fs, i), |fs|);
    if i < j {
      RankMonotone(fs, i, j);
    } else if j < i {
      RankMonotone(fs, j, i);
    }
  }

  /** Required field number r has been seen. */
  predicate RankSeen(fs: seq<Field>, seen: set<nat>, r: nat) {
    r < RequiredBefore(fs, |fs|) && RequiredField(fs, r, |fs|) in seen
  }

  /** The mask of required fields number base up to base + n. */
  function Mask(fs: seq<Field>, seen: set<nat>, base: nat, n: nat): (w: nat)
    decreases n
  {
    if n == 0 then 0 else (if RankSeen(fs, seen, base) then 1 else 0) + 2 * Mask(fs, seen, base + 1, n - 1)
  }

  lemma {:induction false} MaskBound(fs: seq<Field>, seen: set<nat>, base: nat, n: nat)
    ensures Mask(fs, seen, base, n) <= Ones(n)
    decreases n
  {
    if n == 0 {
    } else {
      MaskBound(fs, seen, base + 1, n - 1);
    }
  }

  lemma Ones32()
    ensures Ones(32) == 0xFFFF_FFFF
  {
    assert Ones(8) == 0xFF;
    assert Ones(16) == 0xFFFF;
    assert Ones(24) == 0xFF_FFFF;
  }

  lemma {:induction false} MaskEmpty(fs: seq<Field>, base: nat, n: nat)
    ensures Mask(fs, {}, base, n) == 0
    decreases n
  {
    if n == 0 {
    } else {
      MaskEmpty(fs, base + 1, n - 1);
    }
  }

  /** Meeting required field i sets its own bit and no other. */
  lemma {:induction false} MaskMeets(fs: seq<Field>, seen: set<nat>, i: nat, base: nat, n: nat)
    requires i < |fs| && fs[i].rule.Required?
    ensures var r := RequiredBefore(fs, i);
            Mask(fs, seen + {i}, base, n) ==
              if base <= r < base + n then SetBit(Mask(fs, seen, base, n), r - base) else Mask(fs, seen, base, n)
    decreases n
  {
    if n == 0 {
    } else {
      MaskMeets(fs, seen, i, base + 1, n - 1);
      RankInverse(fs, i);
      assert base != RequiredBefore(fs, i) ==> RankSeen(fs, seen + {i}, base) == RankSeen(fs, seen, base);
    }
  }

  /** The word test: the mask is m ones exactly when the first m of its fields have been seen and the rest not. */
  lemma {:induction false} MaskFull(fs: seq<Field>, seen: set<nat>, base: nat, n: nat, m: nat)
    requires m <= n
    ensures Mask(fs, seen, base, n) == Ones(m) <==> forall r: nat :: base <= r < base + n ==>
              (RankSeen(fs, seen, r) <==> r < base + m)
    decreases n
  {
    if n == 0 {
    } else {
      MaskFull(fs, seen, base + 1, n - 1, if m == 0 then 0 else m - 1);
      hide RankSeen;
      if forall r: nat :: base + 1 <= r < base + n ==> (RankSeen(fs, seen, r) <==> r < base + m) {
        assert RankSeen(fs, seen, base) == (m > 0) ==>
            forall r: nat :: base <= r < base + n ==> (RankSeen(fs, seen, r) <==> r < base + m);
      }
    }
  }

  lemma AllSeenByRank(fs: seq<Field>, seen: set<nat>)
    ensures AllSeen(fs, seen) <==> forall r: nat :: r < RequiredBefore(fs, |fs|) && r < MAX_REQUIRED ==>
              RankSeen(fs, seen, r)
  {
    if forall r: nat :: r < RequiredBefore(fs, |fs|) && r < MAX_REQUIRED ==> RankSeen(fs, seen, r) {
      forall i | 0 <= i < |fs| && fs[i].rule.Required? && RequiredBefore(fs, i) < MAX_REQUIRED
        ensures i in seen
      {
        RankInverse(fs, i);
        assert RankSeen(fs, seen, RequiredBefore(fs, i));
      }
    }
  }

  /** The end of pb_decode_inner: whole words against all ones, then the bits that are left. */
  method CheckRequired(fieldsSeen: seq<U32>, requiredCount: nat, ghost fs: seq<Field>, ghost seen: set<nat>)
    returns (ok: bool)
    requires fieldsSeen == [Mask(fs, seen, 0, 32), Mask(fs, seen, 32, 32)]
    requires requiredCount == RequiredBefore(fs, |fs|)
    ensures ok <==> AllSeen(fs, seen)
  {
    AllSeenByRank(fs, seen);
    hide AllSeen, RequiredBefore, Mask, Ones;
    if requiredCount == 0 {
      return true;
    }
    var count := if requiredCount > MAX_REQUIRED then MAX_REQUIRED else requiredCount;
    MaskFull(fs, seen, 0, 32, 32);
    MaskFull(fs, seen, 32, 32, 32);
    assert forall r: nat :: RankSeen(fs, seen, r) ==> r < requiredCount;
    hide RankSeen;
    for i := 0 to count / 32
      invariant forall r: nat :: r < 32 * i ==> RankSeen(fs, seen, r)
    {
      if fieldsSeen[i] != Ones(32) {
        return false;
      }
    }
    if count % 32 != 0 {
      var base := count / 32 * 32;
      MaskFull(fs, seen, base, 32, count % 32);
      if fieldsSeen[count / 32] != Ones(count % 32) {
        return false;
      }
    }
    return true;
  }
}
