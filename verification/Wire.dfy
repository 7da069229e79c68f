/**
 * The wire format of a message: what the encoder emits and what the decoder reads, as functions on
 * byte sequences. The stream modules prove the in-place code against them.
 */
module Wire {
  import opened Bytes
  import opened Varint
  import opened Message

  // Wire types. PACKED is what the decoder passes down for the items of a packed array.
  const WT_VARINT := 0
  const WT_64BIT := 1
  const WT_STRING := 2
  const WT_32BIT := 5
  const WT_PACKED := 0xFF

  /** PB_MAX_REQUIRED_FIELDS: required fields beyond this many are not tracked. */
  const MAX_REQUIRED := 64

  function WireType(k: Kind): nat {
    match k
    case Fixed32 => WT_32BIT
    case Fixed64 => WT_64BIT
    case Bytes | String | Submessage(_) => WT_STRING
    case _ => WT_VARINT
  }

  // ----- Encoding

  function LittleEndian(n: nat, k: nat): (s: seq<Byte>)
    ensures |s| == k
  {
    if k == 0 then [] else [n % 0x100] + LittleEndian(n / 0x100, k - 1)
  }

  function FromLittleEndian(s: seq<Byte>): (n: nat) {
    if s == [] then 0 else s[0] + 0x100 * FromLittleEndian(s[1..])
  }

  /** A number as its field type puts it on the wire; the same alone and in a packed array. */
  function NumBytes(k: Kind, dataSize: nat, n: int): (s: seq<Byte>)
    requires IsNumeric(k) && SizeFits(k, dataSize) && InRange(k, dataSize, n)
    ensures |s| > 0
  {
    if k.Varint? then VarintBytes(AsU64(n))
    else if k.SVarint? then VarintBytes(ZigZag(n))
    else if k.Fixed32? then LittleEndian(n, 4)
    else if k.Fixed64? then LittleEndian(n, 8)
    else VarintBytes(n)
  }

  function TagBytes(tag: U32, wireType: nat): seq<Byte> { VarintBytes(tag * 8 + wireType) }

  /** A length prefix and the bytes it announces. */
  function Delimited(s: seq<Byte>): (r: seq<Byte>)
    ensures |r| > |s|
  {
    VarintBytes(|s|) + s
  }

  /** One item without its tag; None where the encoder reports an error. */
  function EncodeValue(f: Field, v: Value): Option<seq<Byte>>
    requires FieldOk(f) && TypedValue(f, v)
    decreases f, 0
  {
    match f.kind
    case Bytes => if |v.data| > f.dataSize - 2 then None else Some(Delimited(v.data))
    case String =>
      var n := StrLen(v.data);
      if n >= f.dataSize then None else Some(Delimited(v.data[..n]))
    case Submessage(fs) =>
      var sub :- EncodeMsg(fs, v.slots);
      Some(Delimited(sub))
    case _ => Some(NumBytes(f.kind, f.dataSize, v.n))
  }

  function EncodeRecord(f: Field, v: Value): Option<seq<Byte>>
    requires FieldOk(f) && TypedValue(f, v)
    decreases f, 1
  {
    var payload :- EncodeValue(f, v);
    Some(TagBytes(f.tag, WireType(f.kind)) + payload)
  }

  function PackedBytes(f: Field, items: seq<Value>): seq<Byte>
    requires FieldOk(f) && IsNumeric(f.kind) && forall i :: 0 <= i < |items| ==> TypedValue(f, items[i])
  {
    if items == [] then []
    else
      assert TypedValue(f, items[0]);
      NumBytes(f.kind, f.dataSize, items[0].n) + PackedBytes(f, items[1..])
  }

  function EncodeRecords(f: Field, items: seq<Value>): Option<seq<Byte>>
    requires FieldOk(f) && forall i :: 0 <= i < |items| ==> TypedValue(f, items[i])
    decreases f, 2, items
  {
    if items == [] then Some([])
    else
      var first :- EncodeRecord(f, items[0]);
      var rest :- EncodeRecords(f, items[1..]);
      Some(first + rest)
  }

  /** encode_array: numbers packed into one record, anything else one record an item. */
  function EncodeArray(f: Field, items: seq<Value>): Option<seq<Byte>>
    requires FieldOk(f) && forall i :: 0 <= i < |items| ==> TypedValue(f, items[i])
    decreases f, 3
  {
    if items == [] then Some([])
    else if |items| > f.arraySize then None
    else if IsNumeric(f.kind) then Some(TagBytes(f.tag, WT_STRING) + Delimited(PackedBytes(f, items)))
    else EncodeRecords(f, items)
  }

  /** encode_field: absent and default fields give nothing. */
  function EncodeField(f: Field, s: Slot): Option<seq<Byte>>
    requires FieldOk(f) && TypedSlot(f, s)
    decreases f, 4
  {
    match f.rule
    case Required => EncodeRecord(f, s.v)
    case Singular => if IsDefaultValue(f, s.v) then Some([]) else EncodeRecord(f, s.v)
    case Optional => if s.has then EncodeRecord(f, s.v) else Some([])
    case Repeated => EncodeArray(f, s.items)
  }

  /** pb_encode */
  function EncodeMsg(fs: seq<Field>, m: seq<Slot>): Option<seq<Byte>>
    requires FieldsOk(fs) && TypedMsg(fs, m)
    decreases fs, 5
  {
    if fs == [] then Some([])
    else
      var first :- EncodeField(fs[0], m[0]);
      var rest :- EncodeMsg(fs[1..], m[1..]);
      Some(first + rest)
  }

  /** Every submessage, at any depth, that can be encoded has a length that fits size_t. */
  ghost predicate SizesFitValue(f: Field, v: Value)
    requires FieldOk(f) && TypedValue(f, v)
    decreases f, 6
  {
    f.kind.Submessage? ==>
      && SizesFit(f.kind.fields, v.slots)
      && (EncodeMsg(f.kind.fields, v.slots).Some? ==> |EncodeMsg(f.kind.fields, v.slots).value| < TWO_32)
  }

  ghost predicate SizesFitSlot(f: Field, s: Slot)
    requires FieldOk(f) && TypedSlot(f, s)
    decreases f, 7
  {
    match s
    case Many(items) => forall i :: 0 <= i < |items| ==> SizesFitValue(f, items[i])
    case _ => SizesFitValue(f, s.v)
  }

  ghost predicate SizesFit(fs: seq<Field>, m: seq<Slot>)
    requires FieldsOk(fs) && TypedMsg(fs, m)
    decreases fs, 8
  {
    fs == [] || (SizesFitSlot(fs[0], m[0]) && SizesFit(fs[1..], m[1..]))
  }

  // ----- Decoding

  function ReadBytes(s: seq<Byte>, n: nat): (r: Parsed<seq<Byte>>)
    ensures r.Ok? ==> |r.rest| <= |s|
  {
    if |s| < n then Fail else Ok(s[..n], s[n..])
  }

  /** (int32_t)value */
  function AsI32(v: U64): int {
    var low := v % TWO_32;
    if low >= 0x8000_0000 then low - TWO_32 else low
  }

  function CheckRange(k: Kind, dataSize: nat, n: int, rest: seq<Byte>): Parsed<int> {
    if InRange(k, dataSize, n) then Ok(n, rest) else Fail
  }

  /** A number of the field's type, checked against its width. */
  function DecodeNum(k: Kind, dataSize: nat, s: seq<Byte>): (r: Parsed<int>)
    requires IsNumeric(k)
    ensures r.Ok? ==> |r.rest| < |s| && InRange(k, dataSize, r.value)
  {
    match k
    case Bool =>
      (match DecodeVarint32(s)
       case Fail => Fail
       case Ok(v, rest) => Ok(if v != 0 then 1 else 0, rest))
    case Fixed32 => if |s| < 4 then Fail else CheckRange(k, dataSize, FromLittleEndian(s[..4]), s[4..])
    case Fixed64 => if |s| < 8 then Fail else CheckRange(k, dataSize, FromLittleEndian(s[..8]), s[8..])
    case _ =>
      match DecodeVarint(s)
      case Fail => Fail
      case Ok(v, rest) =>
        var n := if k.UVarint? then v
                 else if k.SVarint? then UnZigZag(v)
                 else if dataSize == 8 then AsI64(v) else AsI32(v);
        CheckRange(k, dataSize, n, rest)
  }

  /** A 32-bit length and as many bytes: where make_string_substream and close_string_substream leave a stream. */
  function DecodeDelimited(s: seq<Byte>): (r: Parsed<seq<Byte>>)
    ensures r.Ok? ==> |r.value| < |s| && |r.rest| < |s|
  {
    match DecodeVarint32(s)
    case Fail => Fail
    case Ok(n, rest) => ReadBytes(rest, n)
  }

  /** pb_dec_submessage initialises array items only: other submessages are merged into. */
  function InitialSlots(f: Field, prior: Value): (m: seq<Slot>)
    requires f.kind.Submessage? && TypedValue(f, prior)
    ensures TypedMsg(f.kind.fields, m)
  {
    DefaultTyped(f.kind.fields);
    if f.rule.Repeated? then DefaultMsg(f.kind.fields) else prior.slots
  }

  /** decode_basic_field: one item over what its storage holds. */
  function DecodeValue(f: Field, prior: Value, wt: nat, s: seq<Byte>): (r: Parsed<Value>)
    requires FieldOk(f) && TypedValue(f, prior)
    ensures r.Ok? ==> |r.rest| < |s| && TypedValue(f, r.value)
    decreases |s|, 0
  {
    if IsNumeric(f.kind) then
      if wt != WireType(f.kind) && wt != WT_PACKED then Fail
      else
        match DecodeNum(f.kind, f.dataSize, s)
        case Fail => Fail
        case Ok(n, rest) => Ok(Num(n), rest)
    else if wt != WT_STRING then Fail
    else
      match DecodeDelimited(s)
      case Fail => Fail
      case Ok(data, rest) =>
        match f.kind
        case Bytes => if |data| + 2 > f.dataSize then Fail else Ok(Blob(data), rest)
        case String => if |data| + 1 > f.dataSize then Fail else Ok(Blob(data), rest)
        case Submessage(fs) =>
          match DecodeMsg(fs, InitialSlots(f, prior), data, false)
          case Fail => Fail
          case Ok(m, _) => Ok(Msg(m), rest)
  }

  /** The items of a packed array: all the bytes must be used, within the array's capacity. */
  function DecodePacked(f: Field, items: seq<Value>, s: seq<Byte>): (r: Option<seq<Value>>)
    requires FieldOk(f) && IsNumeric(f.kind) && forall i :: 0 <= i < |items| ==> TypedValue(f, items[i])
    ensures r.Some? ==> forall i :: 0 <= i < |r.value| ==> TypedValue(f, r.value[i])
    decreases |s|
  {
    if s == [] then Some(items)
    else if |items| >= f.arraySize then None
    else
      match DecodeNum(f.kind, f.dataSize, s)
      case Fail => None
      case Ok(n, rest) => DecodePacked(f, items + [Num(n)], rest)
  }

  /** decode_static_field */
  function DecodeField(f: Field, slot: Slot, wt: nat, s: seq<Byte>): (r: Parsed<Slot>)
    requires FieldOk(f) && TypedSlot(f, slot)
    ensures r.Ok? ==> |r.rest| < |s| && TypedSlot(f, r.value)
    decreases |s|, 1
  {
    match f.rule
    case Required | Singular =>
      (match DecodeValue(f, slot.v, wt, s)
       case Fail => Fail
       case Ok(v, rest) => Ok(One(v), rest))
    case Optional =>
      (match DecodeValue(f, slot.v, wt, s)
       case Fail => Fail
       case Ok(v, rest) => Ok(Maybe(true, v), rest))
    case Repeated =>
      if wt == WT_STRING && IsNumeric(f.kind) then
        match DecodeDelimited(s)
        case Fail => Fail
        case Ok(data, rest) =>
          match DecodePacked(f, slot.items, data)
          case None => Fail
          case Some(items) => Ok(Many(items), rest)
      else if |slot.items| >= f.arraySize then Fail
      else
        DefaultTypedValue(f);
        match DecodeValue(f, DefaultValue(f), wt, s)
        case Fail => Fail
        case Ok(v, rest) => Ok(Many(slot.items + [v]), rest)
  }

  /** Skipping reads the continuation bits only: any length is accepted. */
  function SkipVarint(s: seq<Byte>): (r: Parsed<()>)
    ensures r.Ok? ==> |r.rest| < |s|
  {
    var n := VarintLength(s);
    if n == 0 then Fail else Ok((), s[n..])
  }

  /** pb_skip_field */
  function SkipField(wt: nat, s: seq<Byte>): (r: Parsed<()>)
    ensures r.Ok? ==> |r.rest| < |s|
  {
    if wt == WT_VARINT then SkipVarint(s)
    else if wt == WT_64BIT then if |s| < 8 then Fail else Ok((), s[8..])
    else if wt == WT_STRING then
      match DecodeDelimited(s)
      case Fail => Fail
      case Ok(_, rest) => Ok((), rest)
    else if wt == WT_32BIT then if |s| < 4 then Fail else Ok((), s[4..])
    else Fail
  }

  /** The message so far and the required fields met. */
  datatype Progress = Progress(m: seq<Slot>, seen: set<nat>)

  function Seen(fs: seq<Field>, seen: set<nat>, i: nat): set<nat>
    requires i < |fs|
  {
    if fs[i].rule.Required? then seen + {i} else seen
  }

  /** What follows a tag: a field of the message is read over its slot, any other is skipped. */
  function TakeField(fs: seq<Field>, p: Progress, tag: U32, wt: nat, s: seq<Byte>): (r: Parsed<Progress>)
    requires FieldsOk(fs) && TypedMsg(fs, p.m)
    ensures r.Ok? ==> |r.rest| < |s| && TypedMsg(fs, r.value.m)
    decreases |s|, 2
  {
    match IndexOf(fs, tag)
    case None =>
      (match SkipField(wt, s)
       case Fail => Fail
       case Ok(_, rest) => Ok(p, rest))
    case Some(i) =>
      FieldsOkAt(fs, i);
      TypedAt(fs, p.m, i);
      match DecodeField(fs[i], p.m[i], wt, s)
      case Fail => Fail
      case Ok(slot, rest) =>
        TypedUpdate(fs, p.m, i, slot);
        Ok(Progress(p.m[i := slot], Seen(fs, p.seen, i)), rest)
  }

  /** The loop of pb_decode_inner: fields in any order, to the end or to a zero tag. */
  function DecodeFields(fs: seq<Field>, p: Progress, s: seq<Byte>, nullTerminated: bool): (r: Parsed<Progress>)
    requires FieldsOk(fs) && TypedMsg(fs, p.m)
    ensures r.Ok? ==> |r.rest| <= |s| && TypedMsg(fs, r.value.m)
    decreases |s|, 3
  {
    if s == [] then Ok(p, [])
    else
      match DecodeVarint32(s)
      case Fail => Fail
      case Ok(key, rest) =>
        if key / 8 == 0 then if nullTerminated then Ok(p, rest) else Fail
        else
          match TakeField(fs, p, key / 8, key % 8, rest)
          case Fail => Fail
          case Ok(q, rest') => DecodeFields(fs, q, rest', nullTerminated)
  }

  /** Number of required fields before field i. */
  function RequiredBefore(fs: seq<Field>, i: nat): nat
    requires i <= |fs|
  {
    if i == 0 then 0 else RequiredBefore(fs, i - 1) + if fs[i - 1].rule.Required? then 1 else 0
  }

  /** Every required field that is tracked has been met. */
  predicate AllSeen(fs: seq<Field>, seen: set<nat>) {
    forall i :: 0 <= i < |fs| && fs[i].rule.Required? && RequiredBefore(fs, i) < MAX_REQUIRED ==> i in seen
  }

  /** pb_decode_inner over the struct content m. */
  function DecodeMsg(fs: seq<Field>, m: seq<Slot>, s: seq<Byte>, nullTerminated: bool): (r: Parsed<seq<Slot>>)
    requires FieldsOk(fs) && TypedMsg(fs, m)
    ensures r.Ok? ==> |r.rest| <= |s| && TypedMsg(fs, r.value)
    decreases |s|, 4
  {
    match DecodeFields(fs, Progress(m, {}), s, nullTerminated)
    case Fail => Fail
    case Ok(p, rest) => if AllSeen(fs, p.seen) then Ok(p.m, rest) else Fail
  }

  // ----- Framing flags

  /** pb_encode_ex: a length prefix, or a zero tag at the end, or neither. */
  function EncodeEx(fs: seq<Field>, m: seq<Slot>, delimited: bool, nullTerminated: bool): Option<seq<Byte>>
    requires FieldsOk(fs) && TypedMsg(fs, m)
  {
    var b :- EncodeMsg(fs, m);
    Some(if delimited then Delimited(b) else if nullTerminated then b + [0] else b)
  }

  /** pb_decode_ex over the struct content m. */
  function DecodeEx(fs: seq<Field>, m: seq<Slot>, s: seq<Byte>, delimited: bool,
                    nullTerminated: bool): Parsed<seq<Slot>>
    requires FieldsOk(fs) && TypedMsg(fs, m)
  {
    if !delimited then DecodeMsg(fs, m, s, nullTerminated)
    else
      match DecodeDelimited(s)
      case Fail => Fail
      case Ok(data, rest) =>
        match DecodeMsg(fs, m, data, nullTerminated)
        case Fail => Fail
        case Ok(r, _) => Ok(r, rest)
  }
}
