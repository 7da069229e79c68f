/**
 * Message descriptors as the generator packs them, one to eight words a field, and the iterator that
 * walks and searches the packed form.
 */
module FieldInfo {
  import opened Bytes

  // Scalar types (low four bits of the type octet) that the iterator looks at.
  const LTYPE_SUBMESSAGE := 0x08
  const LTYPE_SUBMSG_W_CB := 0x09
  const LTYPE_EXTENSION := 0x0A
  const HTYPE_REQUIRED := 0x00

  function LType(typ: Byte): nat { typ % 0x10 }

  /** typ & 0x30 */
  function HType(typ: Byte): nat { typ / 0x10 % 4 * 0x10 }

  predicate IsSubmessage(typ: Byte) { LType(typ) == LTYPE_SUBMESSAGE || LType(typ) == LTYPE_SUBMSG_W_CB }

  predicate IsExtension(typ: Byte) { LType(typ) == LTYPE_EXTENSION }

  predicate IsRequired(typ: Byte) { HType(typ) == HTYPE_REQUIRED }

  datatype Width = W1 | W2 | W4 | W8

  /** The arguments of the packing macros: sizeOffset is a difference of member offsets and may be negative. */
  datatype Info = Info(tag: U32, typ: Byte, dataOffset: U32, dataSize: U32, sizeOffset: int, arraySize: U32,
      width: Width)

  function WordCount(w: Width): nat {
    match w
    case W1 => 1
    case W2 => 2
    case W4 => 4
    case W8 => 8
  }

  /** Conversion to int_least8_t. */
  function Int8(x: int): int {
    if x % 0x100 < 0x80 then x % 0x100 else x % 0x100 - 0x100
  }

  /** The octet and tag word of the two widest formats: a negative octet sign-extends over the tag bits. */
  function OffsetAndTag(sizeOffset: int, tag: U32): U32 {
    if Int8(sizeOffset) >= 0 then Int8(sizeOffset) + tag / 0x40 % 0x100_0000 * 0x100
    else TWO_32 + Int8(sizeOffset)
  }

  function Pack(f: Info): (words: seq<U32>)
    ensures |words| == WordCount(f.width)
  {
    var low := f.tag % 0x40 * 4 + f.typ * 0x100;
    match f.width
    case W1 => [0 + low + f.dataOffset % 0x100 * 0x1_0000 + f.sizeOffset % 0x10 * 0x100_0000
                + f.dataSize % 0x10 * 0x1000_0000]
    case W2 => [1 + low + f.arraySize % 0x1000 * 0x1_0000 + f.sizeOffset % 0x10 * 0x1000_0000,
                f.dataOffset % 0x1_0000 + f.dataSize % 0x1000 * 0x1_0000 + f.tag / 0x40 % 0x10 * 0x1000_0000]
    case W4 => [2 + low + f.arraySize % 0x1_0000 * 0x1_0000, OffsetAndTag(f.sizeOffset, f.tag), f.dataOffset,
        f.dataSize]
    case W8 => [3 + low, OffsetAndTag(f.sizeOffset, f.tag), f.dataOffset, f.dataSize, f.arraySize, 0, 0, 0]
  }

  /** The generator's compile-time checks that a field fits the chosen width, with 16-bit sizes. */
  predicate Fits(f: Info) {
    match f.width
    case W1 => f.tag < 0x40 && f.dataOffset < 0x100 && 0 <= f.sizeOffset < 0x10 && f.dataSize < 0x10 && f.arraySize < 2
    case W2 =>
      && f.tag < 0x400 && f.dataOffset < 0x1_0000 && 0 <= f.sizeOffset < 0x10
      && f.dataSize < 0x1000 && f.arraySize < 0x1000
    case _ =>
      && f.tag < 0x1_0000 && f.dataOffset < 0x1_0000 && 0 <= Int8(f.sizeOffset)
      && f.dataSize < 0x1_0000 && f.arraySize < 0x1_0000
  }

  /** What loading gives back for a field. */
  datatype Loaded = Loaded(tag: U32, typ: Byte, dataOffset: U32, dataSize: U32, sizeOffset: int, arraySize: U32)

  /** All the words that the length code announces and loading reads are there. */
  predicate Loadable(w: seq<U32>) {
    && |w| >= 1
    && (w[0] % 4 == 1 ==> |w| >= 2)
    && (w[0] % 4 == 2 ==> |w| >= 4)
    && (w[0] % 4 == 3 ==> |w| >= 5)
  }

  /** Decoding of the words of one field, w[0] telling how many there are. */
  function Load(w: seq<U32>): Loaded
    requires Loadable(w)
  {
    var typ := w[0] / 0x100 % 0x100;
    var low := w[0] / 4 % 0x40;
    if w[0] % 4 == 0 then
      Loaded(low, typ, w[0] / 0x1_0000 % 0x100, w[0] / 0x1000_0000 % 0x10, w[0] / 0x100_0000 % 0x10, 1)
    else if w[0] % 4 == 1 then
      Loaded(low + w[1] / 0x1000_0000 * 0x40, typ, w[1] % 0x1_0000, w[1] / 0x1_0000 % 0x1000,
             w[0] / 0x1000_0000 % 0x10, w[0] / 0x1_0000 % 0x1000)
    else if w[0] % 4 == 2 then
      Loaded((low + w[1] / 0x100 * 0x40) % 0x1_0000, typ, w[2], w[3] % 0x1_0000, Int8(w[1] % 0x100), w[0] / 0x1_0000)
    else
      Loaded((low + w[1] / 0x100 * 0x40) % 0x1_0000, typ, w[2], w[3] % 0x1_0000, Int8(w[1] % 0x100), w[4] % 0x1_0000)
  }

  function Own(f: Info): Loaded {
    Loaded(f.tag, f.typ, f.dataOffset, f.dataSize, f.sizeOffset, f.arraySize)
  }

  /** What the compile-time checks leave to the generator. */
  predicate Representable(f: Info) {
    match f.width
    case W1 => f.arraySize == 1
    case W2 => true
    case _ => 0 <= f.sizeOffset < 0x80
  }

  /** Positional parts of a word: two, six and eight bits, then the rest. */
  lemma LowWord(w: nat, code: nat, tag: nat, typ: nat, high: nat)
    requires code < 4 && tag < 0x40 && typ < 0x100 && w == code + tag * 4 + typ * 0x100 + high * 0x1_0000
    ensures w % 4 == code && w / 4 % 0x40 == tag && w / 0x100 % 0x100 == typ && w / 0x1_0000 == high
  {
    assert w / 4 == tag + 0x40 * (typ + 0x100 * high);
    assert w / 0x100 == w / 4 / 0x40;
    assert w / 0x1_0000 == w / 0x100 / 0x100;
  }

  lemma HighNarrow(high: nat, a: nat, b: nat, c: nat)
    requires a < 0x100 && b < 0x10 && c < 0x10 && high == a + b * 0x100 + c * 0x1000
    ensures high % 0x100 == a && high / 0x100 % 0x10 == b && high / 0x1000 % 0x10 == c && high < 0x1_0000
  {
    assert high / 0x1000 == high / 0x100 / 0x10;
  }

  lemma PackedHeader(f: Info)
    ensures var w := Pack(f)[0];
            && w % 4 == (match f.width case W1 => 0 case W2 => 1 case W4 => 2 case W8 => 3)
            && w / 4 % 0x40 == f.tag % 0x40 && w / 0x100 % 0x100 == f.typ
  {
    var w, tag := Pack(f)[0], f.tag % 0x40;
    match f.width
    case W1 => LowWord(w, 0, tag, f.typ,
        f.dataOffset % 0x100 + f.sizeOffset % 0x10 * 0x100 + f.dataSize % 0x10 * 0x1000);
    case W2 => LowWord(w, 1, tag, f.typ, f.arraySize % 0x1000 + f.sizeOffset % 0x10 * 0x1000);
    case W4 => LowWord(w, 2, tag, f.typ, f.arraySize % 0x1_0000);
    case W8 => LowWord(w, 3, tag, f.typ, 0);
  }

  lemma LoadOne(f: Info)
    requires Fits(f) && f.width.W1?
    ensures Pack(f)[0] % 4 == 0
    ensures Load(Pack(f)) == Own(f) <==> Representable(f)
  {
    var w := Pack(f)[0];
    var high := f.dataOffset + f.sizeOffset * 0x100 + f.dataSize * 0x1000;
    LowWord(w, 0, f.tag, f.typ, high);
    HighNarrow(high, f.dataOffset, f.sizeOffset, f.dataSize);
    assert w / 0x100_0000 == w / 0x1_0000 / 0x100 && w / 0x1000_0000 == w / 0x1_0000 / 0x1000;
  }

  lemma HighTwo(w: nat, low: nat, a: nat, b: nat)
    requires low < 0x1_0000 && a < 0x1000 && b < 0x10 && w == low + (a + b * 0x1000) * 0x1_0000
    ensures w % 0x1_0000 == low && w / 0x1_0000 % 0x1000 == a && w / 0x1000_0000 == b
  {
    assert w / 0x1_0000 == a + b * 0x1000;
    assert w / 0x1000_0000 == w / 0x1_0000 / 0x1000;
  }

  lemma LoadTwo(f: Info)
    requires Fits(f) && f.width.W2?
    ensures Pack(f)[0] % 4 == 1
    ensures Load(Pack(f)) == Own(f)
  {
    var w, w1 := Pack(f)[0], Pack(f)[1];
    var high := f.arraySize + f.sizeOffset * 0x1000;
    assert w == 1 + f.tag % 0x40 * 4 + f.typ * 0x100 + high * 0x1_0000;
    assert w1 == f.dataOffset + (f.dataSize + f.tag / 0x40 * 0x1000) * 0x1_0000;
    LowWord(w, 1, f.tag % 0x40, f.typ, high);
    HighTwo(w, w % 0x1_0000, f.arraySize, f.sizeOffset);
    HighTwo(w1, f.dataOffset, f.dataSize, f.tag / 0x40);
    hide Pack;
    assert f.tag == f.tag % 0x40 + f.tag / 0x40 * 0x40;
  }

  lemma OffsetOctet(sizeOffset: int, tag: U32)
    requires tag < 0x1_0000 && Int8(sizeOffset) >= 0
    ensures OffsetAndTag(sizeOffset, tag) / 0x100 == tag / 0x40
    ensures Int8(OffsetAndTag(sizeOffset, tag) % 0x100) == Int8(sizeOffset)
    ensures Int8(sizeOffset) == sizeOffset <==> 0 <= sizeOffset < 0x80
    ensures (tag % 0x40 + tag / 0x40 * 0x40) % 0x1_0000 == tag
  {
  }

  lemma LoadWide(f: Info)
    requires Fits(f) && (f.width.W4? || f.width.W8?)
    ensures Loadable(Pack(f))
    ensures Load(Pack(f)) == Own(f) <==> Representable(f)
  {
    PackedHeader(f);
    OffsetOctet(f.sizeOffset, f.tag);
    if f.width.W4? {
      LowWord(Pack(f)[0], 2, f.tag % 0x40, f.typ, f.arraySize);
    }
    hide OffsetAndTag, Int8;
  }

  /**
   * Packing loses nothing exactly when a one-word field has array size 1 and the size offset of a
   * four- or eight-word field is below 128. The width checks alone do not say so: they test the
   * size offset after its conversion to eight bits.
   */
  lemma PackedFieldLoads(f: Info)
    requires Fits(f)
    ensures Loadable(Pack(f))
    ensures Load(Pack(f)) == Own(f) <==> Representable(f)
  {
    if f.width.W1? {
      LoadOne(f);
    } else if f.width.W2? {
      LoadTwo(f);
    } else {
      LoadWide(f);
    }
  }

  /** What loading can give at all, by width. */
  lemma LoadBounds(w: seq<U32>)
    requires Loadable(w)
    ensures var l := Load(w);
            && (w[0] % 4 == 0 ==>
                  && l.tag < 0x40 && l.dataOffset < 0x100 && l.dataSize < 0x10
                  && 0 <= l.sizeOffset < 0x10 && l.arraySize == 1)
            && (w[0] % 4 == 1 ==>
                  && l.tag < 0x400 && l.dataOffset < 0x1_0000 && l.dataSize < 0x1000
                  && 0 <= l.sizeOffset < 0x10 && l.arraySize < 0x1000)
            && (w[0] % 4 > 1 ==>
                  l.tag < 0x1_0000 && l.dataSize < 0x1_0000 && l.arraySize < 0x1_0000 && l.sizeOffset < 0x80)
  {
  }

  /**
   * The checks ask no more than needed: a field whose size offset is not negative and whose data offset
   * has 16 bits loads back as itself exactly when it passes them and meets the conditions they leave out.
   */
  lemma LoadsExactly(f: Info)
    requires f.sizeOffset >= 0 && f.dataOffset < 0x1_0000
    ensures Loadable(Pack(f))
    ensures Load(Pack(f)) == Own(f) <==> Fits(f) && Representable(f)
  {
    PackedHeader(f);
    if Fits(f) {
      PackedFieldLoads(f);
    }
    hide Pack, Load;
    LoadBounds(Pack(f));
  }

  /** A size offset of 300 passes the checks and comes back as 44. */
  lemma ChecksAreNotEnough(f: Info)
    requires f == Info(1, 0x10, 512, 4, 300, 1, W4)
    ensures Fits(f) && !Representable(f)
    ensures Loadable(Pack(f)) && Load(Pack(f)).sizeOffset == 44
  {
    PackedHeader(f);
    assert Pack(f)[1] == 44;
  }

  // ----- Whole descriptors

  function Words(fs: seq<Info>): seq<U32> {
    if fs == [] then [] else Pack(fs[0]) + Words(fs[1..])
  }

  /** Position of field i in the packed words, in the required fields and in the submessage table. */
  function WordIndex(fs: seq<Info>, i: nat): nat
    requires i <= |fs|
  {
    if i == 0 then 0 else WordIndex(fs, i - 1) + WordCount(fs[i - 1].width)
  }

  function RequiredIndex(fs: seq<Info>, i: nat): nat
    requires i <= |fs|
  {
    if i == 0 then 0 else RequiredIndex(fs, i - 1) + if IsRequired(fs[i - 1].typ) then 1 else 0
  }

  function SubmessageIndex(fs: seq<Info>, i: nat): nat
    requires i <= |fs|
  {
    if i == 0 then 0 else SubmessageIndex(fs, i - 1) + if IsSubmessage(fs[i - 1].typ) then 1 else 0
  }

  /** What the generator promises of a descriptor: packable fields in increasing tag order, 16-bit indexes. */
  predicate WellFormed(fs: seq<Info>) {
    && (forall i :: 0 <= i < |fs| ==> Fits(fs[i]) && Representable(fs[i]) && fs[i].tag > 0)
    && (forall i, j :: 0 <= i < j < |fs| ==> fs[i].tag < fs[j].tag)
    && WordIndex(fs, |fs|) < 0x1_0000
  }

  function LargestTag(fs: seq<Info>): U32 {
    if fs == [] then 0 else fs[|fs| - 1].tag
  }

  lemma {:induction false} WordIndexTail(fs: seq<Info>, i: nat)
    requires 0 < i <= |fs|
    ensures WordIndex(fs, i) == WordCount(fs[0].width) + WordIndex(fs[1..], i - 1)
  {
    if i > 1 {
      WordIndexTail(fs, i - 1);
    }
  }

  /** The words of field i stand at its position. */
  lemma {:induction false} WordsAt(fs: seq<Info>, i: nat)
    requires i < |fs|
    ensures |Words(fs)| >= WordIndex(fs, i) + WordCount(fs[i].width)
    ensures Words(fs)[WordIndex(fs, i)..][..WordCount(fs[i].width)] == Pack(fs[i])
  {
    if i == 0 {
    } else {
      WordsAt(fs[1..], i - 1);
      WordIndexTail(fs, i);
      var n := WordCount(fs[0].width);
      assert Words(fs)[WordIndex(fs, i)..] == Words(fs[1..])[WordIndex(fs, i) - n..];
    }
  }

  /** The packed header of field i, as the fast checks of the iterator read it. */
  lemma HeaderAt(fs: seq<Info>, i: nat)
    requires i < |fs|
    ensures WordIndex(fs, i) < |Words(fs)|
    ensures var w := Words(fs)[WordIndex(fs, i)];
            && w / 4 % 0x40 == fs[i].tag % 0x40 && w / 0x100 % 0x100 == fs[i].typ
            && w % 4 == (match fs[i].width case W1 => 0 case W2 => 1 case W4 => 2 case W8 => 3)
  {
    WordsAt(fs, i);
    PackedHeader(fs[i]);
    assert Words(fs)[WordIndex(fs, i)] == Words(fs)[WordIndex(fs, i)..][..WordCount(fs[i].width)][0];
  }

  lemma TagBitsAt(fs: seq<Info>, i: nat)
    requires i < |fs|
    ensures WordIndex(fs, i) < |Words(fs)| && Words(fs)[WordIndex(fs, i)] / 4 % 0x40 == fs[i].tag % 0x40
  {
    HeaderAt(fs, i);
  }

  predicate Matches(fs: seq<Info>, i: nat, tag: U32) {
    i < |fs| && fs[i].tag == tag && !IsExtension(fs[i].typ)
  }

  /** A non-extension field with this tag exists. */
  ghost predicate HasTag(fs: seq<Info>, tag: U32) {
    exists i: nat :: Matches(fs, i, tag)
  }

  /** The required fields before field i. */
  ghost function RequiredOnes(fs: seq<Info>, i: nat): set<int>
    requires i <= |fs|
  {
    set j | 0 <= j < i && fs[j].typ / 0x10 % 4 == 0
  }

  /** The submessages before field i, with or without callback. */
  ghost function Submessages(fs: seq<Info>, i: nat): set<int>
    requires i <= |fs|
  {
    set j | 0 <= j < i && 8 <= fs[j].typ % 0x10 <= 9
  }

  lemma OneMore(s: set<int>, x: int)
    requires x !in s
    ensures |s + {x}| == |s| + 1 && s + {} == s
  {
  }

  lemma OneRequired(fs: seq<Info>, i: nat)
    requires i < |fs|
    ensures |RequiredOnes(fs, i + 1)| == |RequiredOnes(fs, i)| + if IsRequired(fs[i].typ) then 1 else 0
  {
    var before := RequiredOnes(fs, i);
    assert i !in before;
    assert RequiredOnes(fs, i + 1) == before + if fs[i].typ / 0x10 % 4 == 0 then {i as int} else {};
    hide RequiredOnes;
    OneMore(before, i);
  }

  lemma OneSubmessage(fs: seq<Info>, i: nat)
    requires i < |fs|
    ensures |Submessages(fs, i + 1)| == |Submessages(fs, i)| + if IsSubmessage(fs[i].typ) then 1 else 0
  {
    var before := Submessages(fs, i);
    assert i !in before;
    assert Submessages(fs, i + 1) == before + if 8 <= fs[i].typ % 0x10 <= 9 then {i as int} else {};
    hide Submessages;
    OneMore(before, i);
  }

  /** The running indexes count the required fields and the submessages passed. */
  lemma {:induction false} IndexesCount(fs: seq<Info>, i: nat)
    requires i <= |fs|
    ensures RequiredIndex(fs, i) == |RequiredOnes(fs, i)| && SubmessageIndex(fs, i) == |Submessages(fs, i)|
  {
    if i == 0 {
      assert RequiredOnes(fs, 0) == {} && Submessages(fs, 0) == {};
    } else {
      hide RequiredOnes, Submessages, IsRequired, IsSubmessage;
      IndexesCount(fs, i - 1);
      OneRequired(fs, i - 1);
      OneSubmessage(fs, i - 1);
    }
  }

  // ----- The iterator

  lemma TagOrder(fs: seq<Info>, i: nat)
    requires WellFormed(fs)
    ensures forall j :: 0 <= j < |fs| ==> fs[j].tag <= LargestTag(fs)
    ensures i < |fs| ==> forall j :: 0 <= j < i ==> fs[j].tag < fs[i].tag
    ensures i < |fs| ==> forall j :: i < j < |fs| ==> fs[j].tag > fs[i].tag
  {
  }

  /** Fields the search has passed: from the first one when it went back to it, else from start on, cyclically. */
  predicate Visited(start: nat, index: nat, back: bool, j: nat) {
    if back then j <= index
    else if index > start then start < j <= index
    else start < j || j <= index
  }

  /** The position after this one, around the fields. */
  function Following(index: nat, count: nat): nat { if index + 1 >= count then 0 else index + 1 }

  /** The first turn of a search passes the one field it moves to. */
  lemma VisitedFirst(start: nat, back: bool, count: nat)
    requires start < count
    ensures var next := if back then 0 else Following(start, count);
            forall j: nat :: j < count && Visited(start, next, back, j) ==> j == next
  {
  }

  /** Each further turn passes one more. */
  lemma VisitedNext(start: nat, index: nat, back: bool, count: nat)
    requires start < count && index < count && index != start && (back ==> index <= start)
    ensures var next := Following(index, count);
            && (back ==> next <= start)
            && forall j: nat :: j < count && Visited(start, next, back, j) ==>
                 Visited(start, index, back, j) || j == next
  {
  }

  /** Back at its start a search has passed every field that could have matched. */
  lemma VisitedAll(fs: seq<Info>, start: nat, back: bool, wanted: U32)
    requires WellFormed(fs) && start < |fs| && (back ==> wanted < fs[start].tag)
    requires forall j: nat :: j < |fs| && Visited(start, start, back, j) ==> !Matches(fs, j, wanted)
    ensures !HasTag(fs, wanted)
  {
    TagOrder(fs, start);
    forall j: nat | j < |fs|
      ensures !Matches(fs, j, wanted)
    {
      if !Visited(start, start, back, j) {
        assert j > start;
      }
    }
  }

  lemma LargestOfNone(fs: seq<Info>)
    ensures fs == [] ==> LargestTag(fs) == 0
  {
  }

  /** Above the largest tag there is nothing to find. */
  lemma NothingAbove(fs: seq<Info>, wanted: U32)
    requires WellFormed(fs) && wanted > LargestTag(fs)
    ensures !HasTag(fs, wanted)
  {
    TagOrder(fs, 0);
  }

  /** 1 << k for the two-bit length code. */
  function Shifted1(k: nat): nat
    requires k < 4
  {
    if k == 0 then 1 else if k == 1 then 2 else if k == 2 then 4 else 8
  }

  lemma LoadPrefix(w: seq<U32>, n: nat)
    requires 1 <= n <= |w| && Loadable(w[..n])
    ensures Loadable(w) && Load(w) == Load(w[..n])
  {
  }

  /** Loading at the position of field i gives that field, and reads no further than its own words. */
  lemma LoadAt(fs: seq<Info>, i: nat)
    requires i < |fs| && WellFormed(fs)
    ensures WordIndex(fs, i) < |Words(fs)|
    ensures Loadable(Words(fs)[WordIndex(fs, i)..])
    ensures Load(Words(fs)[WordIndex(fs, i)..]) == Own(fs[i])
  {
    WordsAt(fs, i);
    var f := fs[i];
    PackedFieldLoads(f);
    hide Pack, Fits, Own, WordIndex, Words, Load, WellFormed;
    LoadPrefix(Words(fs)[WordIndex(fs, i)..], WordCount(f.width));
  }

  /** pb_field_iter_t: the walk over one packed descriptor. */
  class FieldIter {
    const fieldInfo: seq<U32>
    const fieldCount: nat
    const largestTag: U32
    ghost const fields: seq<Info>

    var index: nat
    var fieldInfoIndex: nat
    var requiredFieldIndex: nat
    var submessageIndex: nat
    /** tag, type, sizes and offsets of the field the iterator stands on */
    var current: Loaded

    ghost predicate Describes() {
      WellFormed(fields) && fieldInfo == Words(fields) && fieldCount == |fields| && largestTag == LargestTag(fields)
    }

    /** The running indexes are those of field number index. */
    ghost predicate Positioned()
      reads this
    {
      && Describes()
      && index < fieldCount
      && fieldInfoIndex == WordIndex(fields, index)
      && requiredFieldIndex == RequiredIndex(fields, index)
      && submessageIndex == SubmessageIndex(fields, index)
    }

    /** The iterator stands on a field and everything it shows is that field's own. */
    ghost predicate Valid()
      reads this
    {
      && Describes()
      && (fieldCount == 0 ==> index == 0 && current.tag == 0)
      && (fieldCount > 0 ==> Positioned() && current == Own(fields[index]))
    }

    /** pb_field_iter_begin */
    constructor (ghost fs: seq<Info>, words: seq<U32>, count: nat, largest: U32)
      requires WellFormed(fs) && words == Words(fs) && count == |fs| && largest == LargestTag(fs)
      ensures Valid() && fields == fs && index == 0
    {
      fields, fieldInfo, fieldCount, largestTag := fs, words, count, largest;
      index, fieldInfoIndex, requiredFieldIndex, submessageIndex := 0, 0, 0, 0;
      current := Loaded(0, 0, 0, 0, 0, 0);
      new;
      var _ := LoadDescriptorValues();
    }

    /** load_descriptor_values */
    method LoadDescriptorValues() returns (loaded: bool)
      requires Describes() && (fieldCount > 0 ==> Positioned()) && (fieldCount == 0 ==> index == 0 && current.tag == 0)
      modifies `current
      ensures Valid() && loaded == (fieldCount > 0)
    {
      if index >= fieldCount {
        return false;
      }
      LoadAt(fields, index);
      hide Load, WordIndex, Words, WellFormed, RequiredIndex, SubmessageIndex;
      current := Load(fieldInfo[fieldInfoIndex..]);
      return true;
    }

    /** advance_iterator; after index := fieldCount it restarts whatever the other indexes are. */
    method AdvanceIterator()
      requires Describes() && (index == fieldCount > 0 || Positioned())
      modifies `index, `fieldInfoIndex, `requiredFieldIndex, `submessageIndex
      ensures Positioned() && index == if old(index) + 1 >= fieldCount then 0 else old(index) + 1
    {
      index := index + 1;
      if index >= fieldCount {
        index, fieldInfoIndex, submessageIndex, requiredFieldIndex := 0, 0, 0, 0;
      } else {
        HeaderAt(fields, index - 1);
        var prevDescriptor := fieldInfo[fieldInfoIndex];
        var prevType := prevDescriptor / 0x100 % 0x100;
        var descriptorLen := Shifted1(prevDescriptor % 4);
        fieldInfoIndex := fieldInfoIndex + descriptorLen;
        requiredFieldIndex := requiredFieldIndex + (if IsRequired(prevType) then 1 else 0);
        submessageIndex := submessageIndex + (if IsSubmessage(prevType) then 1 else 0);
      }
    }

    /** pb_field_iter_next: false when the walk has come back to the first field. */
    method Next() returns (more: bool)
      requires Valid() && fieldCount > 0
      modifies this
      ensures Valid() && more == (old(index) + 1 < fieldCount)
      ensures index == if more then old(index) + 1 else 0
    {
      AdvanceIterator();
      var _ := LoadDescriptorValues();
      return index != 0;
    }

    /** One turn of the search: move on, test the six tag bits in the header, load only a candidate. */
    method TryNext(wanted: U32) returns (hit: bool)
      requires Describes() && (index == fieldCount > 0 || Positioned())
      modifies this
      ensures Positioned() && index == if old(index) + 1 >= fieldCount then 0 else old(index) + 1
      ensures hit <==> Matches(fields, index, wanted)
      ensures hit ==> Valid()
    {
      AdvanceIterator();
      TagBitsAt(fields, index);
      var fieldinfo := fieldInfo[fieldInfoIndex];
      if fieldinfo / 4 % 0x40 != wanted % 0x40 {
        return false;
      }
      var _ := LoadDescriptorValues();
      return current.tag == wanted && !IsExtension(current.typ);
    }

    /**
     * pb_field_iter_find. From any position it finds the non-extension field with the tag if there is
     * one; it also stays, and succeeds, on an extension field that happens to carry the tag.
     */
    method Find(wanted: U32) returns (found: bool)
      requires Valid()
      modifies this
      ensures Valid()
      ensures found <==> HasTag(fields, wanted) || old(current.tag) == wanted
      ensures found ==> current.tag == wanted
      ensures !found ==> index == old(index)
    {
      hide WellFormed, WordIndex, RequiredIndex, SubmessageIndex, Words, LargestTag, Visited;
      if current.tag == wanted {
        return true;
      }
      LargestOfNone(fields);
      if wanted > largestTag {
        NothingAbove(fields, wanted);
        return false;
      }
      var start := index;
      ghost var back := wanted < current.tag;
      VisitedFirst(start, back, fieldCount);
      if wanted < current.tag {
        index := fieldCount;
      }
      var hit := TryNext(wanted);
      while !hit && index != start
        invariant Positioned() && start < fieldCount && (back ==> index <= start)
        invariant hit <==> Matches(fields, index, wanted)
        invariant hit ==> Valid()
        invariant !hit ==> forall j: nat :: j < fieldCount && Visited(start, index, back, j) ==>
            !Matches(fields, j, wanted)
        decreases if index <= start then start - index else start + fieldCount - index
      {
        VisitedNext(start, index, back, fieldCount);
        hit := TryNext(wanted);
      }
      if !hit {
        VisitedAll(fields, start, back, wanted);
        var _ := LoadDescriptorValues();
      }
      return hit;
    }
  }

  /** A search can stay on an extension field: begun on the only field, it finds a tag that no other field has. */
  method SearchStaysOnExtension() returns (found: bool, shown: Loaded)
    ensures found && shown.tag == 5 && IsExtension(shown.typ)
    ensures !HasTag([Info(5, 0x1A, 0, 4, 0, 1, W1)], 5)
  {
    var f := Info(5, 0x1A, 0, 4, 0, 1, W1);
    assert Words([f]) == Pack(f) by {
      assert [f][1..] == [];
    }
    assert WordIndex([f], 1) == 1;
    var iter := new FieldIter([f], Pack(f), 1, 5);
    found := iter.Find(5);
    shown := iter.current;
  }
}
