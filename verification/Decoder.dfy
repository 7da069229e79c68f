/**
 * The message decoder: it walks the packed descriptor, reads the stream field by field into a struct
 * and keeps the mask of required fields. It is proved to compute what the wire format says, for every
 * input and every descriptor, and to leave each stream where the format does.
 */
module Decoder {
  import opened Bytes
  import opened Varint
  import opened Message
  import opened Wire
  import opened InputStream
  import opened Descriptors
  import FieldInfo

  /** The message struct that is filled in place. */
  class Struct {
    var slots: seq<Slot>

    constructor (content: seq<Slot>)
      ensures slots == content
    {
      slots := content;
    }
  }

  // ----- Numbers

  /** The cast to a field of dataSize octets. */
  function Narrow(dataSize: nat, v: int): int {
    if dataSize == 1 then FieldInfo.Int8(v)
    else if dataSize == 2 then if v % 0x1_0000 < 0x8000 then v % 0x1_0000 else v % 0x1_0000 - 0x1_0000
    else if dataSize == 4 then if v % TWO_32 < 0x8000_0000 then v % TWO_32 else v % TWO_32 - TWO_32
    else v
  }

  function NarrowUnsigned(dataSize: nat, v: U64): U64 {
    if dataSize == 1 then v % 0x100 else if dataSize == 2 then v % 0x1_0000 else if dataSize == 4 then v % TWO_32 else v
  }

  lemma NarrowInRange(k: Kind, dataSize: nat, v: I64)
    requires (k.Varint? || k.SVarint?) && SizeFits(k, dataSize)
    ensures Narrow(dataSize, v) == v <==> InRange(k, dataSize, v)
  {
  }

  lemma NarrowUnsignedInRange(dataSize: nat, v: U64)
    requires SizeFits(UVarint, dataSize)
    ensures NarrowUnsigned(dataSize, v) == v <==> InRange(UVarint, dataSize, v)
  {
  }

  function CastI32(v: U64): (r: I64)
    ensures r == AsI32(v)
  {
    AsI32(v)
  }

  /** pb_dec_varint: the cast value is compared with the value read. */
  method DecodeVarintField(stream: IStream, ltype: nat, dataSize: nat, ghost k: Kind) returns (ok: bool, n: int)
    requires stream.Valid() && ltype == LTypeOf(k) && (k.Varint? || k.UVarint? || k.SVarint?) && SizeFits(k, dataSize)
    modifies stream
    ensures stream.Valid() && stream.End() == old(stream.End()) && stream.bytesLeft <= old(stream.bytesLeft)
    ensures Agrees(DecodeNum(k, dataSize, old(stream.Remaining())), ok, n, stream.Remaining())
  {
    hide DecodeVarint, DecodeVarint32, MinOf, LimitOf, Narrow, NarrowUnsigned, UnZigZag, AsI32, AsI64;
    var value;
    ok, value := stream.ReadVarint();
    n := 0;
    if !ok {
      return;
    }
    if ltype == LTYPE_UVARINT {
      NarrowUnsignedInRange(dataSize, value);
      if NarrowUnsigned(dataSize, value) != value {
        return false, 0;
      }
      n := value;
    } else {
      var svalue: I64 := if ltype == LTYPE_SVARINT then UnZigZag(value)
                         else if dataSize == 8 then AsI64(value) else CastI32(value);
      NarrowInRange(k, dataSize, svalue);
      if Narrow(dataSize, svalue) != svalue {
        return false, 0;
      }
      n := svalue;
    }
  }

  /** The four octets or-ed together at their positions. */
  function OrOctets(b: seq<Byte>): nat
    requires |b| == 4
  {
    var b0: nat, b1: nat, b2: nat, b3: nat := b[0], b[1], b[2], b[3];
    b0 + 0x100 * b1 + 0x1_0000 * b2 + 0x100_0000 * b3
  }

  lemma OctetRead(s: seq<Byte>)
    requires s != []
    ensures FromLittleEndian(s) == s[0] + 0x100 * FromLittleEndian(s[1..])
    ensures FromLittleEndian([]) == 0
  {
  }

  lemma FourOctetsRead(s: seq<Byte>)
    requires |s| == 4
    ensures FromLittleEndian(s) == OrOctets(s)
  {
    hide FromLittleEndian;
    OctetRead(s);
    OctetRead(s[1..]);
    OctetRead(s[2..]);
    OctetRead(s[3..]);
    assert s[1..][1..] == s[2..] && s[2..][1..] == s[3..] && s[3..][1..] == [];
  }

  lemma EightOctetsRead(s: seq<Byte>)
    requires |s| == 8
    ensures FromLittleEndian(s) == FromLittleEndian(s[..4]) + TWO_32 * FromLittleEndian(s[4..])
  {
    hide FromLittleEndian;
    OctetRead(s);
    OctetRead(s[1..]);
    OctetRead(s[2..]);
    OctetRead(s[3..]);
    FourOctetsRead(s[..4]);
    assert s[1..][1..] == s[2..] && s[2..][1..] == s[3..] && s[3..][1..] == s[4..];
  }

  /** pb_decode_fixed32 and pb_decode_fixed64 */
  method DecodeFixed(stream: IStream, ghost k: Kind, wide: bool) returns (ok: bool, n: int)
    requires stream.Valid() && k == if wide then Fixed64 else Fixed32
    modifies stream
    ensures stream.Valid() && stream.End() == old(stream.End()) && stream.bytesLeft <= old(stream.bytesLeft)
    ensures Agrees(DecodeNum(k, if wide then 8 else 4, old(stream.Remaining())), ok, n, stream.Remaining())
  {
    hide FromLittleEndian;
    n := 0;
    var b;
    if wide {
      ok, b := stream.Read(8);
      if ok {
        EightOctetsRead(b);
        FourOctetsRead(b[..4]);
        FourOctetsRead(b[4..]);
        n := OrOctets(b[..4]) + TWO_32 * OrOctets(b[4..]);
      }
    } else {
      ok, b := stream.Read(4);
      if ok {
        FourOctetsRead(b);
        n := OrOctets(b);
      }
    }
  }

  /** The cases of decode_basic_field that read a number. */
  method DecodeNumber(stream: IStream, ltype: nat, dataSize: nat, ghost k: Kind) returns (ok: bool, n: int)
    requires stream.Valid() && ltype == LTypeOf(k) && IsNumeric(k) && SizeFits(k, dataSize)
    modifies stream
    ensures stream.Valid() && stream.End() == old(stream.End()) && stream.bytesLeft <= old(stream.bytesLeft)
    ensures Agrees(DecodeNum(k, dataSize, old(stream.Remaining())), ok, n, stream.Remaining())
  {
    hide DecodeVarint, DecodeVarint32, FromLittleEndian;
    if ltype == LTYPE_BOOL {
      var value;
      ok, value := stream.ReadVarint32();
      n := if value != 0 then 1 else 0;
    } else if ltype == LTYPE_FIXED32 {
      ok, n := DecodeFixed(stream, k, false);
    } else if ltype == LTYPE_FIXED64 {
      ok, n := DecodeFixed(stream, k, true);
    } else {
      ok, n := DecodeVarintField(stream, ltype, dataSize, k);
    }
  }

  // ----- One item

  /** pb_dec_bytes and pb_dec_string: overhead is the size field or the terminator. */
  method DecodeBlob(stream: IStream, dataSize: nat, overhead: nat) returns (ok: bool, data: seq<Byte>)
    requires stream.Valid()
    modifies stream
    ensures stream.Valid() && stream.End() == old(stream.End()) && stream.bytesLeft <= old(stream.bytesLeft)
    ensures ok <==> DecodeDelimited(old(stream.Remaining())).Ok? &&
                    |DecodeDelimited(old(stream.Remaining())).value| + overhead <= dataSize
    ensures ok ==> Agrees(DecodeDelimited(old(stream.Remaining())), ok, data, stream.Remaining())
  {
    hide DecodeVarint32;
    var size;
    data := [];
    ok, size := stream.ReadVarint32();
    if !ok {
      return;
    }
    if size + overhead > dataSize {
      return false, [];
    }
    ok, data := stream.Read(size);
  }

  /** What an item is read over: array items start from defaults, whatever their storage holds. */
  function Prior(f: Field, storage: Value): Value {
    if f.rule.Repeated? then DefaultValue(f) else storage
  }

  /** Storage not yet initialised. */
  function Blank(d: Descriptor): (m: seq<Slot>)
    ensures |m| == |d.infos|
  {
    seq(|d.infos|, i => One(Num(0)))
  }

  /** decode_basic_field */
  method DecodeBasicField(stream: IStream, wireType: nat, shown: FieldInfo.Loaded, sub: Descriptor, ghost f: Field,
                          storage: Value)
    returns (ok: bool, v: Value)
    requires stream.Valid() && FieldOk(f) && TypedValue(f, Prior(f, storage)) && Shows(shown, f)
    requires f.kind.Submessage? ==> Describes(sub, f.kind.fields)
    modifies stream
    ensures stream.Valid() && Advanced(old(stream.pos), old(stream.bytesLeft), stream.pos, stream.bytesLeft, ok)
    ensures Agrees(DecodeValue(f, Prior(f, storage), wireType, old(stream.Remaining())), ok, v, stream.Remaining())
    decreases stream.bytesLeft, 1
  {
    hide DecodeNum, DecodeDelimited, Describes, DecodeMsg, FieldsOk, TypedMsg, Prior;
    var ltype := FieldInfo.LType(shown.typ);
    v := storage;
    if ltype <= LTYPE_LAST_PACKABLE {
      var expected := if ltype == LTYPE_FIXED32 then WT_32BIT
                      else if ltype == LTYPE_FIXED64 then WT_64BIT else WT_VARINT;
      if wireType != expected && wireType != WT_PACKED {
        return false, v;
      }
      var n;
      ok, n := DecodeNumber(stream, ltype, shown.dataSize, f.kind);
      v := Num(n);
    } else {
      if wireType != WT_STRING {
        return false, v;
      }
      if ltype == LTYPE_SUBMESSAGE {
        ok, v := DecodeSubmessage(stream, shown, sub, f, storage);
      } else {
        var data;
        ok, data := DecodeBlob(stream, shown.dataSize, if ltype == LTYPE_BYTES then 2 else 1);
        v := Blob(data);
      }
    }
  }

  /** The struct that decoding starts from. */
  function Start(fs: seq<Field>, m: seq<Slot>, noInit: bool): (r: seq<Slot>)
    requires noInit ==> TypedMsg(fs, m)
    ensures TypedMsg(fs, r)
  {
    DefaultTyped(fs);
    if noInit then m else DefaultMsg(fs)
  }

  /** Reading a submessage is reading the announced bytes as a message over its start. */
  lemma SubmessageIs(f: Field, storage: Value, s: seq<Byte>)
    requires FieldOk(f) && f.kind.Submessage? && TypedValue(f, Prior(f, storage))
    ensures FieldsOk(f.kind.fields)
    ensures !f.rule.Repeated? ==> storage.Msg? && TypedMsg(f.kind.fields, storage.slots)
    ensures !f.rule.Repeated? ==> |storage.slots| == |f.kind.fields|
    ensures DecodeDelimited(s).Fail? ==> DecodeValue(f, Prior(f, storage), WT_STRING, s).Fail?
    ensures DecodeDelimited(s).Ok? ==>
              var start := if f.rule.Repeated? then Start(f.kind.fields, [], false)
                           else Start(f.kind.fields, storage.slots, true);
              var r := DecodeMsg(f.kind.fields, start, DecodeDelimited(s).value, false);
              && (r.Fail? ==> DecodeValue(f, Prior(f, storage), WT_STRING, s).Fail?)
              && (r.Ok? ==>
                    DecodeValue(f, Prior(f, storage), WT_STRING, s) == Ok(Msg(r.value), DecodeDelimited(s).rest))
  {
    hide DecodeMsg, DecodeDelimited, FieldsOk, DefaultMsg;
  }

  lemma StartIgnores(fs: seq<Field>, m: seq<Slot>)
    ensures Start(fs, m, false) == Start(fs, [], false)
  {
  }

  /** pb_dec_submessage: array items are initialised, other submessages are read over what is there. */
  method DecodeSubmessage(stream: IStream, shown: FieldInfo.Loaded, sub: Descriptor, ghost f: Field, storage: Value)
    returns (ok: bool, v: Value)
    requires stream.Valid() && FieldOk(f) && f.kind.Submessage? && TypedValue(f, Prior(f, storage)) && Shows(shown, f)
    requires Describes(sub, f.kind.fields)
    modifies stream
    ensures stream.Valid() && Advanced(old(stream.pos), old(stream.bytesLeft), stream.pos, stream.bytesLeft, ok)
    ensures Agrees(DecodeValue(f, Prior(f, storage), WT_STRING, old(stream.Remaining())), ok, v, stream.Remaining())
    decreases stream.bytesLeft, 0
  {
    hide DecodeValue, Prior, Describes, DecodeMsg, FieldsOk, FieldOk, TypedMsg, TypedValue, Start, DecodeDelimited,
         Blank;
    ghost var fs, s := f.kind.fields, stream.Remaining();
    DescribedCount(sub, fs);
    SubmessageIs(f, storage, s);
    v := storage;
    var made, substream := stream.MakeSubstream();
    if !made {
      return false, v;
    }
    var noInit := FieldInfo.HType(shown.typ) != HTYPE_REPEATED;
    var dest := new Struct(if noInit then storage.slots else Blank(sub));
    StartIgnores(fs, dest.slots);
    ok := DecodeInner(substream, sub, fs, dest, noInit, false);
    var closed := stream.CloseSubstream(substream);
    v := Msg(dest.slots);
    ok := ok && closed;
  }

  // ----- One field

  /** decode_static_field: the has flag, the count and the items of the field are written in place. */
  method DecodeStaticField(stream: IStream, wireType: nat, shown: FieldInfo.Loaded, sub: Descriptor, ghost f: Field,
                           dest: Struct, i: nat)
    returns (ok: bool)
    requires stream.Valid() && FieldOk(f) && i < |dest.slots| && TypedSlot(f, dest.slots[i]) && Shows(shown, f)
    requires f.kind.Submessage? ==> Describes(sub, f.kind.fields)
    modifies stream, dest
    ensures stream.Valid() && Advanced(old(stream.pos), old(stream.bytesLeft), stream.pos, stream.bytesLeft, ok)
    ensures Moves(DecodeField(f, old(dest.slots[i]), wireType, old(stream.Remaining())), ok, stream.Remaining())
    ensures |dest.slots| == old(|dest.slots|) && dest.slots == old(dest.slots)[i := dest.slots[i]]
    ensures ok ==> dest.slots[i] == DecodeField(f, old(dest.slots[i]), wireType, old(stream.Remaining())).value
    decreases stream.bytesLeft, 2
  {
    DefaultTypedValue(f);
    hide DecodeNum, DecodeDelimited, Describes, DecodeMsg, FieldsOk, TypedMsg, DecodeValue, DecodePacked, TypedValue;
    var htype := FieldInfo.HType(shown.typ);
    var v;
    if htype == HTYPE_REQUIRED || (htype == HTYPE_OPTIONAL && shown.sizeOffset == 0) {
      ok, v := DecodeBasicField(stream, wireType, shown, sub, f, dest.slots[i].v);
      if ok {
        dest.slots := dest.slots[i := One(v)];
      }
    } else if htype == HTYPE_OPTIONAL {
      dest.slots := dest.slots[i := dest.slots[i].(has := true)];
      ok, v := DecodeBasicField(stream, wireType, shown, sub, f, dest.slots[i].v);
      if ok {
        dest.slots := dest.slots[i := Maybe(true, v)];
      }
    } else if wireType == WT_STRING && FieldInfo.LType(shown.typ) <= LTYPE_LAST_PACKABLE {
      ok := DecodePackedArray(stream, shown, sub, f, dest, i);
    } else {
      if |dest.slots[i].items| >= shown.arraySize {
        return false;
      }
      ok, v := DecodeBasicField(stream, wireType, shown, sub, f, Num(0));
      if ok {
        dest.slots := dest.slots[i := Many(dest.slots[i].items + [v])];
      }
    }
  }

  lemma PackedStep(f: Field, items: seq<Value>, s: seq<Byte>)
    requires FieldOk(f) && f.rule.Repeated? && IsNumeric(f.kind) && s != [] && |items| < f.arraySize
    requires TypedSlot(f, Many(items)) && TypedValue(f, DefaultValue(f))
    ensures var r := DecodeValue(f, DefaultValue(f), WT_PACKED, s);
            && (r.Fail? ==> DecodePacked(f, items, s) == None)
            && (r.Ok? ==> TypedSlot(f, Many(items + [r.value])) && |r.rest| < |s|
                          && DecodePacked(f, items, s) == DecodePacked(f, items + [r.value], r.rest))
  {
  }

  /** Its packed branch: items until the substream is used up or the array is full. */
  method DecodePackedArray(stream: IStream, shown: FieldInfo.Loaded, sub: Descriptor, ghost f: Field, dest: Struct,
                           i: nat)
    returns (ok: bool)
    requires stream.Valid() && FieldOk(f) && f.rule.Repeated? && IsNumeric(f.kind) && Shows(shown, f)
    requires i < |dest.slots| && TypedSlot(f, dest.slots[i])
    modifies stream, dest
    ensures stream.Valid() && Advanced(old(stream.pos), old(stream.bytesLeft), stream.pos, stream.bytesLeft, ok)
    ensures Moves(DecodeField(f, old(dest.slots[i]), WT_STRING, old(stream.Remaining())), ok, stream.Remaining())
    ensures |dest.slots| == old(|dest.slots|) && dest.slots == old(dest.slots)[i := dest.slots[i]]
    ensures ok ==> dest.slots[i] == DecodeField(f, old(dest.slots[i]), WT_STRING, old(stream.Remaining())).value
    decreases stream.bytesLeft, 1
  {
    DefaultTypedValue(f);
    hide DecodeNum, DecodeDelimited, Describes, DecodeMsg, FieldsOk, TypedMsg, DecodeValue, TypedValue;
    var made, substream := stream.MakeSubstream();
    if !made {
      return false;
    }
    ghost var whole := DecodePacked(f, dest.slots[i].items, substream.Remaining());
    var status := true;
    while status && substream.bytesLeft > 0 && |dest.slots[i].items| < shown.arraySize
      invariant substream.Valid() && substream.End() + stream.bytesLeft <= old(stream.End()) &&
          stream.pos <= substream.pos
      invariant status ==> substream.End() + stream.bytesLeft == old(stream.End())
      invariant |dest.slots| == old(|dest.slots|) && dest.slots == old(dest.slots)[i := dest.slots[i]]
      invariant TypedSlot(f, dest.slots[i])
      invariant substream.bytesLeft < old(stream.bytesLeft)
      invariant if status then whole == DecodePacked(f, dest.slots[i].items, substream.Remaining()) else whole == None
      modifies substream, dest
      decreases status, substream.bytesLeft
    {
      PackedStep(f, dest.slots[i].items, substream.Remaining());
      var v;
      status, v := DecodeBasicField(substream, WT_PACKED, shown, sub, f, Num(0));
      if status {
        dest.slots := dest.slots[i := Many(dest.slots[i].items + [v])];
      }
    }
    if substream.bytesLeft != 0 {
      return false;
    }
    var closed := stream.CloseSubstream(substream);
    ok := status && closed;
  }

  // ----- A message

  /** The default of a field, from what the iterator shows of it. */
  lemma DefaultShown(shown: FieldInfo.Loaded, f: Field)
    requires Shows(shown, f)
    ensures var htype, ltype := FieldInfo.HType(shown.typ), FieldInfo.LType(shown.typ);
            && (ltype == LTYPE_SUBMESSAGE <==> f.kind.Submessage?)
            && (htype == HTYPE_REPEATED ==> DefaultSlot(f) == Many([]))
            && (htype != HTYPE_REPEATED ==>
                  var hasFlag := htype == HTYPE_OPTIONAL && shown.sizeOffset != 0;
                  DefaultSlot(f) == if hasFlag then Maybe(false, DefaultValue(f)) else One(DefaultValue(f)))
            && DefaultValue(f) == if f.kind.Submessage? then Msg(DefaultMsg(f.kind.fields))
                                  else if ltype == LTYPE_BYTES || ltype == LTYPE_STRING then Blob([]) else Num(0)
  {
    hide DefaultMsg;
  }

  lemma NoDefaults(fs: seq<Field>, m: seq<Slot>)
    requires |m| == |fs| == 0
    ensures m == DefaultMsg(fs)
  {
  }

  lemma DefaultsByField(fs: seq<Field>, m: seq<Slot>)
    requires |m| == |fs| && forall j :: 0 <= j < |fs| ==> m[j] == DefaultSlot(fs[j])
    ensures m == DefaultMsg(fs)
  {
    forall j | 0 <= j < |fs|
      ensures m[j] == DefaultMsg(fs)[j]
    {
      DefaultAt(fs, j);
    }
  }

  /** pb_message_set_to_defaults */
  method SetToDefaults(iter: FieldInfo.FieldIter, d: Descriptor, ghost fs: seq<Field>, dest: Struct)
    requires iter.Valid() && iter.fields == d.infos && iter.index == 0 && Describes(d, fs) && |fs| == |dest.slots| > 0
    modifies iter, dest
    ensures iter.Valid() && iter.index == 0 && dest.slots == DefaultMsg(fs)
    decreases d
  {
    hide Describes, DefaultSlot, DefaultValue, DefaultMsg, Blank, FieldInfo.FieldIter.Valid, FieldInfo.Words,
         FieldInfo.WellFormed,
         FieldInfo.LargestTag, Shows;
    DescribedCount(d, fs);
    var more := true;
    ghost var k := 0;
    while more
      invariant iter.Valid() && |dest.slots| == |fs| && k <= |fs|
      invariant more ==> iter.index == k < |fs|
      invariant !more ==> k == |fs| && iter.index == 0
      invariant forall j :: 0 <= j < k ==> dest.slots[j] == DefaultSlot(fs[j])
      decreases |fs| - k
    {
      ghost var f := fs[k];
      ShownByIterator(iter, d, fs, k);
      DefaultShown(iter.current, f);
      var shown, i := iter.current, iter.index;
      var ltype, htype := FieldInfo.LType(shown.typ), FieldInfo.HType(shown.typ);
      if htype == HTYPE_REPEATED {
        dest.slots := dest.slots[i := Many([])];
      } else {
        var item := Num(0);
        if ltype == LTYPE_SUBMESSAGE {
          var sub := d.subs[iter.submessageIndex];
          DescribedCount(sub, f.kind.fields);
          var inner := new Struct(Blank(sub));
          if |sub.infos| > 0 {
            var inside := new FieldInfo.FieldIter(sub.infos, FieldInfo.Words(sub.infos), |sub.infos|,
                FieldInfo.LargestTag(sub.infos));
            SetToDefaults(inside, sub, f.kind.fields, inner);
          } else {
            NoDefaults(f.kind.fields, inner.slots);
          }
          item := Msg(inner.slots);
        } else if ltype == LTYPE_BYTES || ltype == LTYPE_STRING {
          item := Blob([]);
        }
        var hasFlag := htype == HTYPE_OPTIONAL && shown.sizeOffset != 0;
        dest.slots := dest.slots[i := if hasFlag then Maybe(false, item) else One(item)];
      }
      IterNotEmpty(iter);
      more := iter.Next();
      k := k + 1;
    }
    DefaultsByField(fs, dest.slots);
  }

  lemma UnknownField(d: Descriptor, fs: seq<Field>, p: Progress, tag: U32, wt: nat, s: seq<Byte>)
    requires FieldsOk(fs) && Describes(d, fs) && TypedMsg(fs, p.m) && !FieldInfo.HasTag(d.infos, tag)
    ensures SkipField(wt, s).Fail? ==> TakeField(fs, p, tag, wt, s).Fail?
    ensures SkipField(wt, s).Ok? ==> TakeField(fs, p, tag, wt, s) == Ok(p, SkipField(wt, s).rest)
  {
    SearchIsIndexOf(d, fs, tag);
  }

  lemma KnownField(d: Descriptor, fs: seq<Field>, p: Progress, tag: U32, i: nat, wt: nat, s: seq<Byte>)
    requires FieldsOk(fs) && Describes(d, fs) && TypedMsg(fs, p.m) && i < |fs| && d.infos[i].tag == tag
    ensures FieldOk(fs[i]) && i < |p.m| && TypedSlot(fs[i], p.m[i])
    ensures DecodeField(fs[i], p.m[i], wt, s).Fail? ==> TakeField(fs, p, tag, wt, s).Fail?
    ensures DecodeField(fs[i], p.m[i], wt, s).Ok? ==>
              var r := DecodeField(fs[i], p.m[i], wt, s);
              TakeField(fs, p, tag, wt, s) == Ok(Progress(p.m[i := r.value], Seen(fs, p.seen, i)), r.rest)
  {
    DescribedTag(d, fs, i);
    FoundAt(d, fs, tag, i);
    FieldsOkAt(fs, i);
    TypedAt(fs, p.m, i);
  }

  lemma FoundOn(iter: FieldInfo.FieldIter, d: Descriptor, fs: seq<Field>, tag: U32)
    requires iter.Valid() && iter.fields == d.infos && Describes(d, fs) && iter.current.tag == tag != 0
    ensures iter.index < |fs| && d.infos[iter.index].tag == tag
  {
    DescribedCount(d, fs);
  }

  /** Meeting field i in the mask of two words. */
  lemma MaskStep(fs: seq<Field>, seen: set<nat>, i: nat, mask: seq<U32>)
    requires i < |fs| && mask == [Mask(fs, seen, 0, 32), Mask(fs, seen, 32, 32)]
    ensures Mask(fs, Seen(fs, seen, i), 0, 32) < TWO_32 && Mask(fs, Seen(fs, seen, i), 32, 32) < TWO_32
    ensures var r := RequiredBefore(fs, i);
            fs[i].rule.Required? && r < MAX_REQUIRED ==> SetBit(mask[r / 32], r % 32) < TWO_32
    ensures var r := RequiredBefore(fs, i);
            [Mask(fs, Seen(fs, seen, i), 0, 32), Mask(fs, Seen(fs, seen, i), 32, 32)] ==
              if !fs[i].rule.Required? || r >= MAX_REQUIRED then mask
              else [mask[0], mask[1]][r / 32 := SetBit(mask[r / 32], r % 32)]
  {
    hide Mask, SetBit, Ones, RequiredBefore;
    MaskBound(fs, Seen(fs, seen, i), 0, 32);
    MaskBound(fs, Seen(fs, seen, i), 32, 32);
    Ones32();
    if fs[i].rule.Required? {
      MaskMeets(fs, seen, i, 0, 32);
      MaskMeets(fs, seen, i, 32, 32);
    }
  }

  /** One record: find the field from wherever the iterator stands, and read it or skip what follows the tag. */
  method DecodeRecord(stream: IStream, d: Descriptor, ghost fs: seq<Field>, dest: Struct, iter: FieldInfo.FieldIter,
                      wireType: nat, tag: U32, mask: seq<U32>, ghost seen: set<nat>)
    returns (ok: bool, fieldsSeen: seq<U32>, ghost p: Progress)
    requires stream.Valid() && FieldsOk(fs) && Describes(d, fs) && TypedMsg(fs, dest.slots)
    requires iter.Valid() && iter.fields == d.infos && tag != 0
    requires mask == [Mask(fs, seen, 0, 32), Mask(fs, seen, 32, 32)]
    modifies stream, dest, iter
    ensures stream.Valid() && Advanced(old(stream.pos), old(stream.bytesLeft), stream.pos, stream.bytesLeft, ok)
    ensures iter.Valid()
    ensures Agrees(TakeField(fs, Progress(old(dest.slots), seen), tag, wireType, old(stream.Remaining())), ok, p,
        stream.Remaining())
    ensures ok ==> p.m == dest.slots && fieldsSeen == [Mask(fs, p.seen, 0, 32), Mask(fs, p.seen, 32, 32)]
    decreases stream.bytesLeft, 3
  {
    hide DecodeField, SkipField, TakeField, Describes, FieldsOk, TypedMsg, Mask, SetBit, RequiredBefore, DescribesField,
         FieldOk, TypedSlot, Seen, FieldInfo.FieldIter.Valid, FieldInfo.FieldIter.Describes,
         FieldInfo.FieldIter.Positioned,
         FieldInfo.HasTag;
    fieldsSeen := mask;
    p := Progress(dest.slots, seen);
    ghost var s := stream.Remaining();
    DescribedCount(d, fs);
    var found := iter.Find(tag);
    if !found {
      UnknownField(d, fs, p, tag, wireType, s);
      ok := stream.SkipOverField(wireType);
    } else {
      FoundOn(iter, d, fs, tag);
      ghost var i := iter.index;
      KnownField(d, fs, p, tag, i, wireType, s);
      ShownByIterator(iter, d, fs, i);
      MaskStep(fs, seen, i, mask);
      if FieldInfo.HType(iter.current.typ) == HTYPE_REQUIRED && iter.requiredFieldIndex < MAX_REQUIRED {
        var word := iter.requiredFieldIndex / 32;
        fieldsSeen := fieldsSeen[word := SetBit(fieldsSeen[word], iter.requiredFieldIndex % 32)];
      }
      var sub := if iter.submessageIndex < |d.subs| then d.subs[iter.submessageIndex] else d;
      ok := DecodeStaticField(stream, wireType, iter.current, sub, fs[i], dest, iter.index);
      p := Progress(dest.slots, Seen(fs, seen, i));
    }
  }

  /** What each turn of the loop of pb_decode_inner makes of the bytes left. */
  lemma FieldsTurn(fs: seq<Field>, p: Progress, s: seq<Byte>, nt: bool)
    requires FieldsOk(fs) && TypedMsg(fs, p.m)
    ensures s == [] ==> DecodeFields(fs, p, s, nt) == Ok(p, [])
    ensures s != [] && DecodeVarint32(s).Fail? ==> DecodeFields(fs, p, s, nt).Fail?
    ensures s != [] && DecodeVarint32(s).Ok? && DecodeVarint32(s).value / 8 == 0 ==>
              DecodeFields(fs, p, s, nt) == if nt then Ok(p, DecodeVarint32(s).rest) else Fail
    ensures s != [] && DecodeVarint32(s).Ok? && DecodeVarint32(s).value / 8 != 0 ==>
              var key := DecodeVarint32(s).value;
              var r := TakeField(fs, p, key / 8, key % 8, DecodeVarint32(s).rest);
              && (r.Fail? ==> DecodeFields(fs, p, s, nt).Fail?)
              && (r.Ok? ==> TypedMsg(fs, r.value.m))
              && (r.Ok? ==> DecodeFields(fs, p, s, nt) == DecodeFields(fs, r.value, r.rest, nt))
  {
    hide DecodeVarint32, TakeField, FieldsOk, TypedMsg;
  }

  /** The loop of pb_decode_inner. */
  method DecodeLoop(stream: IStream, d: Descriptor, ghost fs: seq<Field>, dest: Struct, iter: FieldInfo.FieldIter,
                    nullTerminated: bool)
    returns (ok: bool, fieldsSeen: seq<U32>, ghost p: Progress)
    requires stream.Valid() && FieldsOk(fs) && Describes(d, fs) && TypedMsg(fs, dest.slots)
    requires iter.Valid() && iter.fields == d.infos
    modifies stream, dest, iter
    ensures stream.Valid() && Advanced(old(stream.pos), old(stream.bytesLeft), stream.pos, stream.bytesLeft, ok)
    ensures Agrees(DecodeFields(fs, Progress(old(dest.slots), {}), old(stream.Remaining()), nullTerminated), ok, p,
        stream.Remaining())
    ensures ok ==> p.m == dest.slots && fieldsSeen == [Mask(fs, p.seen, 0, 32), Mask(fs, p.seen, 32, 32)]
    decreases stream.bytesLeft, 4
  {
    hide DecodeFields, DecodeVarint32, TakeField, Describes, FieldsOk, TypedMsg, Mask, FieldInfo.FieldIter.Valid;
    fieldsSeen := [0, 0];
    p := Progress(dest.slots, {});
    ghost var whole := DecodeFields(fs, p, stream.Remaining(), nullTerminated);
    MaskEmpty(fs, 0, 32);
    MaskEmpty(fs, 32, 32);
    FieldsTurn(fs, p, stream.Remaining(), nullTerminated);
    var more := stream.bytesLeft > 0;
    while more
      invariant stream.Valid() && Advanced(old(stream.pos), old(stream.bytesLeft), stream.pos, stream.bytesLeft, true)
      invariant iter.Valid() && TypedMsg(fs, dest.slots) && p.m == dest.slots
      invariant fieldsSeen == [Mask(fs, p.seen, 0, 32), Mask(fs, p.seen, 32, 32)]
      invariant more ==> stream.bytesLeft > 0 && whole == DecodeFields(fs, p, stream.Remaining(), nullTerminated)
      invariant !more ==> whole == Ok(p, stream.Remaining())
      decreases more, stream.bytesLeft
    {
      FieldsTurn(fs, p, stream.Remaining(), nullTerminated);
      var got, wireType, tag, eof := stream.ReadTag();
      if !got {
        return false, fieldsSeen, p;
      }
      if tag == 0 {
        if !nullTerminated {
          return false, fieldsSeen, p;
        }
        more := false;
      } else {
        ok, fieldsSeen, p := DecodeRecord(stream, d, fs, dest, iter, wireType, tag, fieldsSeen, p.seen);
        if !ok {
          return;
        }
        FieldsTurn(fs, p, stream.Remaining(), nullTerminated);
        more := stream.bytesLeft > 0;
      }
    }
    ok := true;
  }

  lemma StartIs(fs: seq<Field>, m: seq<Slot>, noInit: bool)
    requires |m| == |fs| && (noInit ==> TypedMsg(fs, m))
    ensures Start(fs, m, noInit) == if noInit || |fs| == 0 then m else DefaultMsg(fs)
    ensures FieldInfo.Words([]) == []
  {
  }

  /** pb_decode_inner: defaults, the fields, and the required ones among them. */
  method DecodeInner(stream: IStream, d: Descriptor, ghost fs: seq<Field>, dest: Struct, noInit: bool,
                     nullTerminated: bool)
    returns (ok: bool)
    requires stream.Valid() && FieldsOk(fs) && Describes(d, fs) && |dest.slots| == |fs|
    requires noInit ==> TypedMsg(fs, dest.slots)
    modifies stream, dest
    ensures stream.Valid() && Advanced(old(stream.pos), old(stream.bytesLeft), stream.pos, stream.bytesLeft, ok)
    ensures Agrees(DecodeMsg(fs, Start(fs, old(dest.slots), noInit), old(stream.Remaining()), nullTerminated),
                   ok, dest.slots, stream.Remaining())
    decreases stream.bytesLeft, 5
  {
    hide DecodeFields, Describes, FieldsOk, TypedMsg, Mask, FieldInfo.FieldIter.Valid, RequiredBefore,
         FieldInfo.RequiredIndex, AllSeen,
         DefaultMsg, Start, FieldInfo.Words, FieldInfo.LargestTag, FieldInfo.WellFormed;
    DescribedCount(d, fs);
    RequiredRank(d, fs, |fs|);
    StartIs(fs, dest.slots, noInit);
    var iter := new FieldInfo.FieldIter(d.infos, FieldInfo.Words(d.infos), |d.infos|, FieldInfo.LargestTag(d.infos));
    if |d.infos| > 0 && !noInit {
      SetToDefaults(iter, d, fs, dest);
    }
    ghost var p;
    var fieldsSeen;
    ok, fieldsSeen, p := DecodeLoop(stream, d, fs, dest, iter, nullTerminated);
    if ok {
      ok := CheckRequired(fieldsSeen, FieldInfo.RequiredIndex(d.infos, |d.infos|), fs, p.seen);
    }
  }

  /** pb_decode_ex, and pb_decode when no flag is set. */
  method DecodeExtended(stream: IStream, d: Descriptor, ghost fs: seq<Field>, dest: Struct,
                        noInit: bool, delimited: bool, nullTerminated: bool)
    returns (ok: bool)
    requires stream.Valid() && FieldsOk(fs) && Describes(d, fs) && |dest.slots| == |fs|
    requires noInit ==> TypedMsg(fs, dest.slots)
    modifies stream, dest
    ensures stream.Valid() && Advanced(old(stream.pos), old(stream.bytesLeft), stream.pos, stream.bytesLeft, ok)
    ensures Agrees(DecodeEx(fs, Start(fs, old(dest.slots), noInit), old(stream.Remaining()), delimited, nullTerminated),
                   ok, dest.slots, stream.Remaining())
  {
    hide DecodeMsg, DecodeDelimited, Describes, FieldsOk, TypedMsg, Start;
    if !delimited {
      ok := DecodeInner(stream, d, fs, dest, noInit, nullTerminated);
    } else {
      var made, substream := stream.MakeSubstream();
      if !made {
        return false;
      }
      ok := DecodeInner(substream, d, fs, dest, noInit, nullTerminated);
      var closed := stream.CloseSubstream(substream);
      if !closed {
        ok := false;
      }
    }
  }
}
