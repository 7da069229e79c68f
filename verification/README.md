# Formal model of the kart's serial command link, its report queue and its lap accounting

The firmware's command link takes bytes from a serial line to writes of shared objects. This project
models it bottom to top in Dafny and proves what each layer promises. Two smaller stateful parts of
the repository follow: the Bluetooth report queue and the simulator's distance accounting.

## Structure

- `Bytes`, `Varint`: fixed-width integers, base-128 varints and zigzag as declarative functions.
- `FieldInfo`: message descriptors as packed words, and the iterator that walks and searches them.
- `Message`, `Wire`: descriptor trees, message values, and the wire format as functions in both
  directions.
- `Descriptors`: packed descriptors of whole message trees, and the required-field bit mask.
- `OutputStream`: the encoder as methods on an output stream, driven by the packed descriptor, each
  proved to write exactly the wire format's bytes.
- `InputStream`, `Decoder`: the decoder as methods on an input stream, driven by the packed descriptor
  and the bit mask, each proved to compute the wire format's decoding.
- `Merge`, `SchemaEvolution`, `CodecTheorems`, `RoundTrips`, `Concatenation`, `RequiredFields`,
  `ScalarMessages`: what users of the codec rely on. `SchemaEvolution.FieldsMerge` is the central
  theorem; round trips, compatibility and "last one wins" follow from it.
- `WireOctets`, `KartOctets`: the wire format and the kart's messages octet by octet, with all numbers
  written out: independent of the functions encoder and decoder share.
- `KartMessages`: the ten kart messages as instances.
- `Bits`, `Crc8`: the CRC-8 loop and its algebra over GF(2).
- `Frames`: the frame protocol as functions on byte streams, and the bounded receive buffer.
- `KmObjects`, `KmComs`: the object table and the link's methods, on arrays updated in place.
- `EndToEnd`: commands to objects across the whole stack.
- `ReportRing`: the ring buffer and the device that retries from it.
- `Laps`, `Driving`: the kart's motion, arc-length table, projection and the episode loop, over the reals.

The wire format follows the Protocol Buffers Encoding specification, sections "Base 128 Varints",
"Message Structure", "More Integer Types", "Length-Delimited Records", "Last One Wins" and "Packed
Repeated Fields". Floats are 32-bit patterns, so that round trips are exact for every value.

Parameters of the model are what the repository leaves to others: the bytes the serial driver hands
over, whether the Bluetooth link takes a report, the controller's commands, the conversion of an
integer to a float, and the functions `hypot`, `sqrt`, `cos`, `sin`, `tan` and the distance to the
boundary, of which only `hypot >= 0` is used, and `tan 0 = 0` where the wheel is straight.

## Where code and comments disagree

The code is followed. The checksum is described as exclusive or
(heritage/kart_medulla/components/km_coms/km_coms.c:25) and is a CRC-8; payloads are described as one-
and two-byte integers (lines 244-252 there) and are encoded messages; setting an object is documented
to return 0 on success (heritage/kart_medulla/components/km_objects/km_objects.h) and returns 1.

## What the proofs found

- The compile-time checks of wide descriptors test the size offset after its conversion to eight bits,
  so 300 passes and loads as 44; a one-word field with array size 0 passes and loads as 1.
  `FieldInfo.PackedFieldLoads` gives the exact condition.
- The iterator's search also succeeds, staying where it is, on an extension field that carries the
  wanted tag (`FieldInfo.SearchStaysOnExtension`); the decoder tests for that afterwards.
- The 32-bit varint decoder accepts encodings outside the two families it is meant for;
  `Varint.Varint32InFamilies` says which.
- With payloads above 188 bytes, full chunks can overflow the receive buffer and lose an intact frame;
  `Frames.DeliversExactly` shows that 188 is the limit.
- Reports can go out in another order than they were accepted: one sent directly overtakes those that
  wait, and a failed attempt puts the head of the queue behind the rest. `ReportRing.StepKeepsOrder` says
  exactly when order is kept.
- A chunk read from the serial driver while the mutex is not granted is lost.

## Model

| member | source | states |
|---|---|---|
| `Varint.VarintRoundTrip` | heritage/kart_medulla/components/nanopb/pb_encode.c:573-623 | every 64-bit value survives encoding whatever bytes follow, in at most ten bytes, and the 32-bit decoder reads every value below 2^32 back too |
| `Varint.VarintBytesShortest` | heritage/kart_medulla/components/nanopb/pb_encode.c:573-605 | no terminated byte string for the same value is shorter than the emitted one, and one as short is the emitted one |
| `Varint.Varint32Refines64` | heritage/kart_medulla/components/nanopb/pb_decode.c:171-263 | whenever the 32-bit decoder succeeds the 64-bit one does, consuming the same bytes, with an equal value modulo 2^32 |
| `Varint.Varint32Accepts` | heritage/kart_medulla/components/nanopb/pb_decode.c:171-235 | every 64-bit varint below 2^32 or sign-extending a negative 32-bit number is accepted, in any encoding, and reads as its low 32 bits |
| `Varint.Varint32InFamilies` | heritage/kart_medulla/components/nanopb/pb_decode.c:199-228 | what is accepted is below 2^32 or a sign extension exactly when the bytes show nothing above bit 31, or are ten with everything above bit 30 set |
| `Varint.Varint32AcceptsMore` | heritage/kart_medulla/components/nanopb/pb_decode.c:217-225 | an input outside both families: a 35-bit value passes and is truncated |
| `Varint.VarintExtend` | heritage/kart_medulla/components/nanopb/pb_decode.c:171-263 | a varint that decodes goes on decoding to the same value when more input follows |
| `Varint.ZigZagBijection` | heritage/kart_medulla/components/nanopb/pb_encode.c:625-635 | zigzag and its inverse are a bijection between the signed and unsigned 64-bit numbers, the minimum included |
| `FieldInfo.PackedFieldLoads` | heritage/kart_medulla/components/nanopb/pb.h:761-799 | a field that passes the width checks loads back as itself exactly when a one-word field has array size 1 and a wide field has a size offset below 128 |
| `FieldInfo.ChecksAreNotEnough` | heritage/kart_medulla/components/nanopb/pb.h:794-799 | a size offset of 300 passes the compile-time checks and comes back as 44 |
| `FieldInfo.LoadsExactly` | heritage/kart_medulla/components/nanopb/pb.h:761-799 | a field with a 16-bit data offset and a size offset that is not negative loads back as itself exactly when it passes the checks and those conditions: no check is too narrow |
| `FieldInfo.IndexesCount` | heritage/kart_medulla/components/nanopb/pb_common.c:122-154 | the running indexes count the required fields and the submessages passed, read off the type octets by number |
| `FieldInfo.FieldIter.constructor` | heritage/kart_medulla/components/nanopb/pb_common.c:156-164 | the iterator starts on the first field, showing its tag, type, sizes, offsets and indexes |
| `FieldInfo.FieldIter.LoadDescriptorValues` | heritage/kart_medulla/components/nanopb/pb_common.c:8-72 | loading at the position of a field, whatever its width and the widths before it, shows exactly that field |
| `FieldInfo.FieldIter.AdvanceIterator` | heritage/kart_medulla/components/nanopb/pb_common.c:122-154 | moving on keeps the word, required-field and submessage indexes those of the new field, and wraps to the first |
| `FieldInfo.FieldIter.Next` | heritage/kart_medulla/components/nanopb/pb_common.c:188-193 | the walk visits the fields in order and says when it is back at the first |
| `FieldInfo.FieldIter.TryNext` | heritage/kart_medulla/components/nanopb/pb_common.c:218-237 | one turn of the search: it hits exactly a non-extension field with the tag, loading only candidates whose six tag bits agree |
| `FieldInfo.FieldIter.Find` | heritage/kart_medulla/components/nanopb/pb_common.c:195-244 | from any position the search ends, succeeds exactly when a non-extension field has the tag (or the iterator already stands on that tag), and then shows that field; a failed search returns to where it was |
| `FieldInfo.SearchStaysOnExtension` | heritage/kart_medulla/components/nanopb/pb_common.c:195-202 | an input on which a search succeeds with no such field: begun on an extension field that carries the tag, it stays there |
| `Descriptors.SearchIsIndexOf` | heritage/kart_medulla/components/nanopb/pb_common.c:195-244 | in a packed descriptor of a message, searching for a tag agrees with searching the list of fields |
| `Descriptors.TypeNumbers` | heritage/kart_medulla/components/nanopb/pb.h:239-287 | by number, what the type octet of each repetition and each of the nine scalar types is |
| `Descriptors.CheckRequired` | heritage/kart_medulla/components/nanopb/pb_decode.c:1121-1149 | the test of whole mask words and remaining bits succeeds exactly when every tracked required field has been met |
| `Descriptors.MaskMeets` | heritage/kart_medulla/components/nanopb/pb_decode.c:1103-1108 | meeting a required field sets its own bit of the mask and no other |
| `Descriptors.MaskFull` | heritage/kart_medulla/components/nanopb/pb_decode.c:1121-1149 | a mask word equals m ones exactly when the first m of its fields have been met and the others not |
| `OutputStream.OStream.constructor` | heritage/kart_medulla/components/nanopb/pb_encode.c:63-82 | a stream over part of a buffer is limited to that part |
| `OutputStream.OStream.Sizing` | heritage/kart_medulla/components/nanopb/pb_encode.c:557-559 | a sizing stream stores nothing and counts from zero |
| `OutputStream.OStream.Write` | heritage/kart_medulla/components/nanopb/pb_encode.c:84-105 | writing succeeds exactly when the bytes fit, appends exactly them, and touches nothing outside the limit |
| `OutputStream.OStream.EncodeVarint32` | heritage/kart_medulla/components/nanopb/pb_encode.c:573-605 | the split low and high arithmetic emits the base-128 form of the 64-bit value |
| `OutputStream.OStream.EncodeVarint` | heritage/kart_medulla/components/nanopb/pb_encode.c:607-623 | the same for a whole value, with the single-byte case apart |
| `OutputStream.FillLow` | heritage/kart_medulla/components/nanopb/pb_encode.c:575-586 | the loop over the low half: what is emitted and what is pending always make up the whole encoding |
| `OutputStream.FillHigh` | heritage/kart_medulla/components/nanopb/pb_encode.c:588-601 | the loop over the high half ends within ten bytes with one group pending |
| `OutputStream.OStream.EncodeNumber` | heritage/kart_medulla/components/nanopb/pb_encode.c:776-854 | a number of each scalar type is put on the wire in that type's form |
| `OutputStream.OStream.EncodeTag` | heritage/kart_medulla/components/nanopb/pb_encode.c:675-679 | a key is the varint of tag and wire type |
| `OutputStream.OStream.EncodeString` | heritage/kart_medulla/components/nanopb/pb_encode.c:716-722 | a length prefix and the bytes, or failure with nothing outside the limit touched |
| `OutputStream.ScanString` | heritage/kart_medulla/components/nanopb/pb_encode.c:877-928 | the scan accepts a string exactly when its NUL lies within the array, and finds its length |
| `OutputStream.OStream.EncodeSubmessage` | heritage/kart_medulla/components/nanopb/pb_encode.c:724-772 | sizing pass, length and writing pass together emit the delimited message; the two passes always agree, so the only failures are an unencodable message and lack of room |
| `OutputStream.OStream.EncodeBasicField` | heritage/kart_medulla/components/nanopb/pb_encode.c:362-403 | one record: key and payload by type |
| `OutputStream.OStream.EncodePacked` | heritage/kart_medulla/components/nanopb/pb_encode.c:144-196 | a packed array: the size computed beforehand is the size of the items written |
| `OutputStream.OStream.EncodeArrayField` | heritage/kart_medulla/components/nanopb/pb_encode.c:128-240 | arrays of numbers are one packed record, others one record an item, too many items are an error |
| `OutputStream.CheckDefault` | heritage/kart_medulla/components/nanopb/pb_encode.c:244-358 | the check of a field, and of every field of a submessage through its iterator, is true exactly for default content |
| `OutputStream.OStream.EncodeOneField` | heritage/kart_medulla/components/nanopb/pb_encode.c:418-469 | absent optional and default singular fields emit nothing, others their records |
| `OutputStream.OStream.Encode` | heritage/kart_medulla/components/nanopb/pb_encode.c:512-534 | walking the packed descriptor, encoding succeeds exactly when the message can be encoded and its bytes fit, and writes exactly those bytes |
| `OutputStream.OStream.EncodeExtended` | heritage/kart_medulla/components/nanopb/pb_encode.c:536-555 | the same with a length prefix or a zero byte at the end |
| `OutputStream.GetEncodedSize` | heritage/kart_medulla/components/nanopb/pb_encode.c:557-566 | the size reported is the length of what encoding writes, and an error is reported exactly when encoding fails |
| `InputStream.IStream.ReadByte` | heritage/kart_medulla/components/nanopb/pb_decode.c:125-141 | one byte is taken off the front, unless none is left |
| `InputStream.IStream.Read` | heritage/kart_medulla/components/nanopb/pb_decode.c:82-121 | count bytes are taken off the front or none; position plus bytes left stays |
| `InputStream.IStream.ReadVarint` | heritage/kart_medulla/components/nanopb/pb_decode.c:243-263 | the loop accepts exactly the terminated varints of at most ten bytes below 2^64, gives their value and stops after them |
| `InputStream.IStream.ReadVarint32Eof` | heritage/kart_medulla/components/nanopb/pb_decode.c:171-235 | the loop with its overflow and sign-extension checks computes the declarative 32-bit decoder; end of stream is reported exactly when nothing is left |
| `InputStream.IStream.ReadTag` | heritage/kart_medulla/components/nanopb/pb_decode.c:291-306 | key split into tag and wire type |
| `InputStream.IStream.SkipOverVarint` | heritage/kart_medulla/components/nanopb/pb_decode.c:266-275 | skipping stops after the first byte without continuation bit |
| `InputStream.IStream.SkipString` | heritage/kart_medulla/components/nanopb/pb_decode.c:277-289 | skipping a delimited field moves past exactly its bytes |
| `InputStream.IStream.SkipOverField` | heritage/kart_medulla/components/nanopb/pb_decode.c:308-318 | skipping moves past the payload of each wire type and refuses unknown ones |
| `InputStream.IStream.MakeSubstream` | heritage/kart_medulla/components/nanopb/pb_decode.c:362-375 | the substream gets exactly the announced bytes; what parent and substream have left together is what the parent had |
| `InputStream.IStream.CloseSubstream` | heritage/kart_medulla/components/nanopb/pb_decode.c:377-390 | closing skips what is unread and leaves the parent just after the announced bytes |
| `Decoder.DecodeVarintField` | heritage/kart_medulla/components/nanopb/pb_decode.c:1425-1495 | a varint is accepted exactly when its value is in range of the field, by comparison with the cast value |
| `Decoder.DecodeFixed` | heritage/kart_medulla/components/nanopb/pb_decode.c:1370-1417 | four or eight octets, low first |
| `Decoder.DecodeBlob` | heritage/kart_medulla/components/nanopb/pb_decode.c:1497-1585 | bytes and strings are accepted exactly when they fit their storage with size field or terminator |
| `Decoder.DecodeBasicField` | heritage/kart_medulla/components/nanopb/pb_decode.c:396-465 | an item is decoded by type after the wire type check |
| `Decoder.DecodeSubmessage` | heritage/kart_medulla/components/nanopb/pb_decode.c:1587-1637 | a submessage is decoded from its substream over what is there, array items over defaults |
| `Decoder.DecodePackedArray` | heritage/kart_medulla/components/nanopb/pb_decode.c:475-510 | packed items are appended until the substream is used up; too many items or a bad one fail |
| `Decoder.DecodeStaticField` | heritage/kart_medulla/components/nanopb/pb_decode.c:467-555 | a field is decoded over its slot by repetition rule and no other slot changes |
| `Decoder.SetToDefaults` | heritage/kart_medulla/components/nanopb/pb_decode.c:869-984 | walking the descriptor resets every field, submessages included |
| `Decoder.DecodeRecord` | heritage/kart_medulla/components/nanopb/pb_decode.c:1042-1112 | a record of a known tag is read over its field and recorded in the mask, any other is skipped |
| `Decoder.DecodeLoop` | heritage/kart_medulla/components/nanopb/pb_decode.c:1016-1112 | the loop computes the declarative decoding of the bytes left and always ends; position plus bytes left never grows |
| `Decoder.DecodeInner` | heritage/kart_medulla/components/nanopb/pb_decode.c:990-1152 | the whole decoder, on packed words and a bit mask, computes the declarative decoding for every input and descriptor |
| `Decoder.DecodeExtended` | heritage/kart_medulla/components/nanopb/pb_decode.c:1154-1194 | the same with every flag; a delimited message leaves the stream just after it |
| `WireOctets.NumberOctets` | heritage/kart_medulla/components/nanopb/pb_encode.c:625-673 | the octets of a number of each type: four or eight, lowest first, or a varint of the number, of its 64-bit complement or of its zigzag form |
| `WireOctets.RecordOctets` | heritage/kart_medulla/components/nanopb/pb_encode.c:681-722 | a record is the varint of eight times the tag plus 5, 1, 0 or 2 by type, and then the number's octets or the counted bytes |
| `WireOctets.PackedItem` | heritage/kart_medulla/components/nanopb/pb_encode.c:178-195 | the items of a packed array stand one after the other, each as its type alone would |
| `WireOctets.PackedOctets` | heritage/kart_medulla/components/nanopb/pb_encode.c:144-196 | an array of numbers is one record of wire type 2 with the length and the octets of its items |
| `WireOctets.WireTypeDecides` | heritage/kart_medulla/components/nanopb/pb_decode.c:396-465 | a field that is read was under wire type 5 for four octets, 1 for eight, 0 for any other number, 2 for everything else and for packed arrays |
| `WireOctets.SkipOctets` | heritage/kart_medulla/components/nanopb/pb_decode.c:308-318 | an unknown field of wire type 0, 1, 2 or 5 is skipped as a varint, 8 octets, a counted string or 4 octets, fails if that is not there, and any other wire type fails |
| `WireOctets.LeftOut` | heritage/kart_medulla/components/nanopb/pb_encode.c:244-358 | a singular field is left out exactly if it is zero, has no bytes, begins with its terminator, or is a submessage of which nothing would be emitted |
| `WireOctets.StringEnds` | heritage/kart_medulla/components/nanopb/pb_encode.c:877-928 | a string on the wire ends before the first NUL of its array |
| `WireOctets.VarintsRead` | heritage/kart_medulla/components/nanopb/pb_decode.c:1425-1495 | what every varint is read as by each type and width, whoever emitted it: nonzero is true, signed numbers by two's complement or zigzag, refused out of range |
| `WireOctets.FixedRead` | heritage/kart_medulla/components/nanopb/pb_decode.c:1370-1417 | what four or eight octets are read as |
| `WireOctets.StringsRead` | heritage/kart_medulla/components/nanopb/pb_decode.c:1497-1637 | counted bytes are read exactly if they leave room for a 16-bit size or a terminator; a submessage is read over what is there |
| `WireOctets.KeyDecides` | heritage/kart_medulla/components/nanopb/pb_decode.c:1016-1042 | a key splits into tag and wire type by eight; tag 0 ends a null-terminated message and fails any other |
| `SchemaEvolution.FieldsMerge` | heritage/kart_medulla/components/nanopb/pb_decode.c:1016-1112 | decoding the encoding of a message, followed by anything, into any content of a compatible struct is merging the message into it and decoding what follows |
| `SchemaEvolution.SkipsPayload` | heritage/kart_medulla/components/nanopb/pb_decode.c:308-318 | skipping consumes exactly what any branch of the encoder emits for that wire type |
| `CodecTheorems.MergePointwise` | heritage/kart_medulla/components/nanopb/pb_decode.c:467-555 | merging acts on each field by itself and fails only if an array overflows |
| `CodecTheorems.Compatibility` | heritage/kart_medulla/components/nanopb/pb_decode.c:1042-1077 | a reader lacking or adding fields, in the message or in submessages at any depth, gets exactly the projection of the message, with any framing, and leaves what follows |
| `CodecTheorems.RoundTrip` | heritage/kart_medulla/components/nanopb/pb_encode.c:512-555 | decoding what was encoded gives the canonical form of the message, with any framing |
| `RoundTrips.MsgEncodes` | heritage/kart_medulla/components/nanopb/pb_encode.c:856-928 | the encoder succeeds exactly for messages whose bytes, strings and arrays fit their descriptor at every depth |
| `RoundTrips.ExactRoundTrip` | heritage/kart_medulla/components/nanopb/pb_decode.c:990-1194 | every message that fits decodes from its encoding, and equals the original exactly if strings are NUL-free and absent optional fields hold defaults |
| `Concatenation.FieldsContinue` | heritage/kart_medulla/components/nanopb/pb_decode.c:1016-1112 | without null termination decoding uses every byte and goes on with what follows |
| `Concatenation.UsesAllInput` | heritage/kart_medulla/components/nanopb/pb_decode.c:1016-1112 | success without null termination means every byte was consumed |
| `Concatenation.ConcatenationMerges` | heritage/kart_medulla/components/nanopb/pb_decode.c:1154-1180 | if a decodes, a followed by b decodes exactly when the fields of b parse over the result, with that outcome: whatever b shows of required fields, a has shown |
| `ScalarMessages.LastOneWins` | heritage/kart_medulla/components/nanopb/pb_decode.c:1016-1112 | for scalar messages and any bytes that decode, each field ends with the number of the last record of its tag, zero included, and keeps what it held if there is none |
| `ScalarMessages.ZeroRecordWins` | heritage/kart_medulla/components/nanopb/pb_decode.c:1016-1112 | the record 08 00 clears the field with tag 1, although this encoder never emits it |
| `ScalarMessages.DecodesOverAnything` | heritage/kart_medulla/components/nanopb/pb_decode.c:1016-1112 | whether bytes decode as a scalar message, and how far, does not depend on what they are decoded over |
| `ScalarMessages.EncodedOverlays` | heritage/kart_medulla/components/nanopb/pb_encode.c:418-469 | decoding an encoded scalar message over another one keeps the old numbers only where the new ones are zero |
| `ScalarMessages.ConcatenatedScalars` | heritage/kart_medulla/components/nanopb/pb_decode.c:1154-1180 | if a and b each decode as a scalar message, a followed by b decodes over anything, as a and then b over the result: the number of the last record in b wins, else the last in a, else what was there |
| `ScalarMessages.EncodedTwice` | heritage/kart_medulla/components/nanopb/pb_encode.c:512-534 | two encoded scalar messages in one buffer decode to the second laid over the first |
| `RequiredFields.FieldSkips` | heritage/kart_medulla/components/nanopb/pb_decode.c:308-318 | reading a field stops where skipping it would: the wire type alone says how long a record is |
| `RequiredFields.RequiredTagsDecide` | heritage/kart_medulla/components/nanopb/pb_decode.c:1103-1149 | with at most 64 required fields, a message whose fields parse is accepted exactly when every required tag occurs on the wire |
| `KartMessages.KartDescribed` | heritage/kart_medulla/components/km_proto/kart_msgs.pb.h:124-189 | the packed descriptor of each kart message describes it |
| `KartMessages.KartRoundTrip` | heritage/kart_medulla/components/km_proto/kart_msgs.pb.h:124-189 | every kart message comes back bit for bit from its encoding |
| `KartMessages.MaxSizeExact` | heritage/kart_medulla/components/km_proto/kart_msgs.pb.h:216-225 | the maximum size bounds every encoding and one message reaches it |
| `KartMessages.SizeConstants` | heritage/kart_medulla/components/km_proto/kart_msgs.pb.h:216-225 | the maximum sizes are the ten constants of the header |
| `KartMessages.ShortDescriptors` | heritage/kart_medulla/components/nanopb/pb.h:761-763 | the packed descriptor words of the one-float messages and of the steering report, as literals |
| `KartMessages.CompleteDescriptor` | heritage/kart_medulla/components/nanopb/pb.h:761-763 | the six packed descriptor words of the complete command, as literals |
| `KartMessages.HealthDescriptor` | heritage/kart_medulla/components/nanopb/pb.h:761-763 | the ten packed descriptor words of the health report, as literals |
| `KartOctets.MessageOctets` | heritage/kart_medulla/components/nanopb/pb_encode.c:512-534 | a kart message is exactly the records of its members that are not zero, in tag order, and is read back from them with or without the zero ones |
| `KartOctets.PartRead` | heritage/kart_medulla/components/nanopb/pb_decode.c:1042-1112 | a record gives the member of its tag the number it carries, whatever the struct held, and leaves the others |
| `KartOctets.OneFloatOctets` | heritage/kart_medulla/components/km_proto/kart_msgs.pb.h:124-179 | the five one-float messages are 0D and four octets, both ways |
| `KartOctets.HeartbeatOctets` | heritage/kart_medulla/components/km_proto/kart_msgs.pb.h:147-148 | the heartbeat is 08 and a varint, both ways |
| `KartOctets.ActAccelerationOctets` | heritage/kart_medulla/components/km_proto/kart_msgs.pb.h:130-132 | the acceleration report is lateral under 0D and longitudinal under 15, both ways |
| `KartOctets.ActSteeringOctets` | heritage/kart_medulla/components/km_proto/kart_msgs.pb.h:141-143 | the steering report is the angle under 0D and the encoder under 10, both ways |
| `KartOctets.HealthStatusOctets` | heritage/kart_medulla/components/km_proto/kart_msgs.pb.h:152-162 | the health report is three flags under 08, 10, 18 and seven counts under 20 to 50, both ways |
| `KartOctets.OrinCompleteOctets` | heritage/kart_medulla/components/km_proto/kart_msgs.pb.h:181-187 | the complete command is three floats under 0D, 15, 1D, mission and state under 20 and 28 and shutdown under 30, both ways |
| `Crc8.ComputeCrc` | heritage/kart_medulla/components/km_coms/km_coms.c:345-366 | the three-phase shift loop computes the checksum of LEN, TYPE and PAYLOAD |
| `Crc8.CrcIsRemainder` | heritage/kart_medulla/components/km_coms/km_coms.c:345-366 | the checksum is a remainder of the message polynomial times x^8 on division by x^8+x^2+x+1 |
| `Crc8.RemainderUnique` | heritage/kart_medulla/components/km_coms/km_coms.c:345-366 | that remainder is unique |
| `Crc8.FeedLinear` | heritage/kart_medulla/components/km_coms/km_coms.c:345-366 | the checksum register is linear: the register of an exclusive or is the exclusive or of the registers |
| `Crc8.DamageAcceptedIff` | heritage/kart_medulla/components/km_coms/km_coms.c:214-218 | a damaged frame of intact length passes exactly when the error pattern alone leaves the register at zero |
| `Crc8.DamageRejected` | heritage/kart_medulla/components/km_coms/km_coms.c:214-218 | every error of odd weight and every burst of at most eight bits behind an intact LEN is rejected |
| `Crc8.WrongOctetRejected` | heritage/kart_medulla/components/km_coms/km_coms.c:214-218 | a frame with one octet behind LEN replaced by any other octet is rejected |
| `Frames.ParseInPieces` | heritage/kart_medulla/components/km_coms/km_coms.c:195-229 | parsing a stream in two pieces, keeping the residue, is parsing it whole |
| `Frames.ParseWire` | heritage/kart_medulla/components/km_coms/km_coms.c:195-220 | frames, damaged frames and stray bytes in any order: exactly the intact frames are dispatched, in order |
| `Frames.ResidueBound` | heritage/kart_medulla/components/km_coms/km_coms.c:195-229 | however the wire is cut, fewer bytes than one longest frame stay |
| `Frames.RunBounds` | heritage/kart_medulla/components/km_coms/km_coms.c:168-184 | whatever arrives the buffer holds at most 255 bytes and a dispatched payload at most 251 |
| `Frames.RunIsParse` | heritage/kart_medulla/components/km_coms/km_coms.c:156-232 | with payloads up to 188 bytes the bounded receiver is the unbounded parser, for any chunking |
| `Frames.InChunks` | heritage/kart_medulla/components/km_coms/km_coms.c:160-172 | every stream can be handed over in chunks of at most 64 bytes, full ones while more is waiting |
| `Frames.NeverReset` | heritage/kart_medulla/components/km_coms/km_coms.c:168-184 | with payloads up to 188 bytes at most 191 bytes are kept and every chunk fits: the overflow reset never fires |
| `Frames.Delivery` | heritage/kart_medulla/components/km_coms/km_coms.c:156-232 | any chunking of a wire with payloads up to 188 bytes dispatches exactly the intact frames in order |
| `Frames.SafePayloadIsTight` | heritage/kart_medulla/components/km_coms/km_coms.c:173-176 | with 189 bytes full chunks reset the buffer and the intact frame is never dispatched |
| `Frames.DeliversExactly` | heritage/kart_medulla/components/km_coms/km_coms.c:168-184 | payloads up to a given length are delivered on every wire under every chunking exactly if that length is at most 188 |
| `Frames.DamageIsolation` | heritage/kart_medulla/components/km_coms/km_coms.c:201-220 | an odd-weight or short-burst error behind LEN removes exactly that frame's message |
| `KmObjects.Objects.SetObjectValue` | heritage/kart_medulla/components/km_objects/km_objects.c:26-30 | a known object is written and 1 returned, an unknown one changes nothing and gives 0 |
| `KmObjects.Objects.GetObjectValue` | heritage/kart_medulla/components/km_objects/km_objects.c:32-35 | a known object's value, or the not-a-number pattern |
| `KmComs.LayOutFrame` | heritage/kart_medulla/components/km_coms/km_coms.c:111-131 | the frame laid out is the one the receiver looks for, with its checksum right |
| `KmComs.Link.ReceiveMsg` | heritage/kart_medulla/components/km_coms/km_coms.c:156-187 | the chunk is appended, or replaces the buffer when it does not fit; without the mutex it is lost |
| `KmComs.Link.ProcessFrame` | heritage/kart_medulla/components/km_coms/km_coms.c:200-220 | a complete frame is dispatched exactly if its checksum is right |
| `KmComs.Link.ProcessMsgs` | heritage/kart_medulla/components/km_coms/km_coms.c:189-232 | the in-place loop and compaction leave the parser's residue in the buffer and the objects as its messages dispatched in order leave them; without the mutex nothing changes |
| `KmComs.Link.Compact` | heritage/kart_medulla/components/km_coms/km_coms.c:223-229 | what is not processed moves to the front of the buffer |
| `KmComs.Link.ProcessPayload` | heritage/kart_medulla/components/km_coms/km_coms.c:258-326 | each message type writes its own objects from a decoded payload and nothing else |
| `KmComs.Link.RunTask` | heritage/kart_medulla/components/km_coms/km_coms.c:156-232 | receive and process over any chunks: buffer and objects are those of the abstract run |
| `KmComs.DecodePayload` | heritage/kart_medulla/components/km_coms/km_coms.c:262-268 | decoding a payload into a zeroed struct gives the numbers of the message, or nothing |
| `KmComs.DispatchConcat` | heritage/kart_medulla/components/km_coms/km_coms.c:258-326 | dispatching messages in two groups is dispatching them all |
| `EndToEnd.CommandEffect` | heritage/kart_medulla/components/km_coms/km_coms.c:258-326 | dispatching the encoded payload of a command under its type number does to the objects, by position and bit pattern, what the command asks for |
| `EndToEnd.PayloadOctets` | heritage/kart_medulla/components/km_proto/kart_msgs.pb.h:166-187 | the payload of each encoded command, octet by octet |
| `EndToEnd.FrameOctets` | heritage/kart_medulla/components/km_coms/km_coms.c:111-131 | a command on the wire: AA, length, type number, payload and checksum |
| `EndToEnd.OctetsCarriedOut` | heritage/kart_medulla/components/km_coms/km_coms.c:258-309 | what the octets of each single command do to the objects by position: a float or the converted octet, shutdown as 0 or 3F800000 |
| `EndToEnd.CompleteCarriedOut` | heritage/kart_medulla/components/km_coms/km_coms.c:310-323 | what the octets of a complete command do to the first six objects, the others staying |
| `EndToEnd.CommandsCarriedOut` | heritage/kart_medulla/components/km_coms/km_coms.c:156-326 | whatever the chunks, stray bytes and spoiled frames, the objects end as if the commands had been carried out in order |
| `EndToEnd.ReceiveCommands` | heritage/kart_medulla/components/km_coms/km_coms.c:156-326 | the same of the code, from an empty buffer |
| `EndToEnd.OthersUnchanged` | heritage/kart_medulla/components/km_coms/km_coms.c:258-326 | an object that no message's type number writes keeps its value |
| `EndToEnd.UndecodableIgnored` | heritage/kart_medulla/components/km_coms/km_coms.c:262-323 | leaving out the messages whose payload does not decode, wherever they stand, leaves the objects the same |
| `ReportRing.Ring.IsEmpty` | heritage/kart_medulla/components/bluepad32/uni_circular_buffer.c:42-44 | empty exactly when the queue holds nothing |
| `ReportRing.Ring.IsFull` | heritage/kart_medulla/components/bluepad32/uni_circular_buffer.c:46-48 | full exactly when the queue holds one less than the slots |
| `ReportRing.Ring.Put` | heritage/kart_medulla/components/bluepad32/uni_circular_buffer.c:11-26 | a report is appended unless the queue is full or it is too big, and no slot but the tail changes |
| `ReportRing.Ring.Get` | heritage/kart_medulla/components/bluepad32/uni_circular_buffer.c:28-40 | the oldest report is taken; its slot is not the one the next put writes |
| `ReportRing.Ring.Reset` | heritage/kart_medulla/components/bluepad32/uni_circular_buffer.c:50-52 | the queue is empty |
| `ReportRing.Device.SendReport` | heritage/kart_medulla/components/bluepad32/uni_hid_device.c:797-823 | a valid report is sent, queued or given up, and either way a can-send-now event is asked for |
| `ReportRing.Device.SendQueuedReports` | heritage/kart_medulla/components/bluepad32/uni_hid_device.c:844-863 | one attempt on the head of the queue |
| `ReportRing.RetrySendsOrRotates` | heritage/kart_medulla/components/bluepad32/uni_hid_device.c:844-863 | an attempt sends the head or moves it to the tail unchanged; the re-queue is never refused |
| `ReportRing.RunConserves` | heritage/kart_medulla/components/bluepad32/uni_hid_device.c:797-863 | over every run the queue keeps within capacity and every valid report is exactly once waiting, sent or given up |
| `ReportRing.RunLosesRefused` | heritage/kart_medulla/components/bluepad32/uni_hid_device.c:797-863 | the reports given up over a run are exactly those that came while the link was busy and the queue full, or that no slot can hold |
| `ReportRing.DrainsInOrder` | heritage/kart_medulla/components/bluepad32/uni_hid_device.c:844-863 | while the link is free the queue goes out in order |
| `ReportRing.BusyRotates` | heritage/kart_medulla/components/bluepad32/uni_hid_device.c:844-863 | while the link is busy attempts rotate the queue |
| `ReportRing.StepKeepsOrder` | heritage/kart_medulla/components/bluepad32/uni_hid_device.c:797-863 | an event keeps sent and waiting reports in the order they were accepted exactly if a report sent at once finds only equal ones waiting, and a failed attempt finds all waiting ones equal |
| `ReportRing.RunKeepsOrder` | heritage/kart_medulla/components/bluepad32/uni_hid_device.c:797-863 | over a whole run sent and waiting reports are at every moment the accepted ones in order exactly if every event meets that condition |
| `ReportRing.RetryBreaksOrder` | heritage/kart_medulla/components/bluepad32/uni_hid_device.c:844-863 | an input that breaks it: after a failed attempt the second report goes out first |
| `ReportRing.DirectSendOvertakes` | heritage/kart_medulla/components/bluepad32/uni_hid_device.c:812-820 | an input that breaks it without any failed attempt: a report sent directly overtakes one that waits |
| `Laps.SpeedInRange` | heritage/kart_brain/scripts/sim2d/kart_model.py:23-44 | speed stays between zero and the limit and changes no faster than allowed |
| `Driving.Approaches` | heritage/kart_brain/scripts/sim2d/kart_model.py:28-32 | the speed reaches the command, limited to 0 to 10, if 2 m/s^2 allow it, and else comes nearer by exactly that much |
| `Driving.FromRest` | heritage/kart_brain/scripts/sim2d/kart_model.py:28-32 | from rest under constant command the speed after n steps is the lesser of n tenths and the command |
| `Driving.Moves` | heritage/kart_brain/scripts/sim2d/kart_model.py:34-44 | in a step the kart goes speed times dt along its heading and turns by the tangent of the limited steering angle over 1.05 |
| `Driving.StraightAhead` | heritage/kart_brain/scripts/sim2d/kart_model.py:34-44 | with the wheel straight the kart stays on its heading and is the sum of its steps ahead of where it stood |
| `Laps.Track.ComputeCenterline` | heritage/kart_brain/scripts/sim2d/track.py:63-93 | a hundred points a segment, each the weighted mean of two neighbouring cone pairs, from the first pair whose middle is nearest the spawn all the way around, with arc lengths and closed length |
| `Laps.Track.TableSteps` | heritage/kart_brain/scripts/sim2d/track.py:83-93 | the table starts at zero, differs from point to point by their distance, and the length adds the way back to the start |
| `Laps.Track.TableInRange` | heritage/kart_brain/scripts/sim2d/track.py:88-93 | entries never decrease and lie between zero and the track's length |
| `Laps.Track.ProjectsOntoNearest` | heritage/kart_brain/scripts/sim2d/track.py:110-116 | projection gives the table entry of the first point with the least squared distance, and the root of it |
| `Laps.WholeLaps` | heritage/kart_brain/scripts/sim2d/sim.py:100-107 | total distance and net displacement along the table differ by a whole number of laps |
| `Laps.TrueDisplacement` | heritage/kart_brain/scripts/sim2d/sim.py:100-107 | if every true step is shorter than half the track, total distance is the true displacement |
| `Laps.ShortWay` | heritage/kart_brain/scripts/sim2d/sim.py:101-105 | the corrected step differs from the measured one by no lap or one, and is at most half the track long |
| `Laps.CenteringIs` | heritage/kart_brain/scripts/sim2d/sim.py:115-119 | centering is 1 on the centerline, 0 from the half width on, and loses the squared ratio in between |
| `Driving.SteadyProgress` | heritage/kart_brain/scripts/sim2d/sim.py:115-122 | a drive at one distance from the centerline and one speed earns its total distance times centering, and times 1 + v/10 |
| `Laps.RunEpisode` | heritage/kart_brain/scripts/sim2d/sim.py:63-140 | the episode loop follows the kart step by step to the first state outside the track; total distance is the unwrapped one and whole laps off the net displacement, laps are its whole quotient, both weighted sums are the defined ones, bounded by the way travelled and twice that |

## Left out

- Pointer-allocated fields, user callbacks and custom streams, extensions, oneofs, fixed-count arrays,
  fixed-length bytes, default-value streams, UTF-8 validation and double-to-float conversion: build
  options or field kinds that the kart's messages do not use.
- OutputStream.OStream.Write: counts bytes without the wrap-around of a 32-bit size. On a buffer the
  source's test for it and for the limit together are the test for the limit alone; a sizing stream
  would wrap only beyond 2^32 bytes, and submessages are required to be shorter.
- Decoder.DecodeRecord: has no extensions and no fixed-count arrays, whose cases stand in the same loop.
- Decoder.DecodeLoop: likewise.
- Decoder.DecodeInner: likewise.
- Decoder.DecodeSubmessage: decodes into a struct of its own and stores it when done; on success this is
  reading in place, on failure the struct's content is not described.
- Decoder.DecodeStaticField: does not describe the content of the field's slot after a failure, where the
  source may have raised a count or a has flag already.
- Decoder.SetToDefaults: resets submessages without submessages of their own field by field, where the
  source clears their memory at once.
- Values in memory beyond a string's terminator or an array's count are not modelled.
- KmComs.LayOutFrame: covers payloads of at most 251 bytes, the size of the message's array, although
  the source's length test lets longer ones through, and not the retry loop around the serial driver
  (heritage/kart_medulla/components/km_coms/km_coms.c:133-149).
- KmComs.Link.RunTask: runs with the mutex granted; only the communication task takes it.
- ReportRing.Ring.Put: keeps a report as its octets, not the stale octets behind it in the slot, and the
  channel as its 16-bit pattern, which the signed and unsigned declarations share.
- What the Bluetooth stack does with a request for a can-send-now event.
- Laps.RunEpisode: takes the commands as given, so perception, controllers and the remaining fitness
  sums (cross-track error, boundary penalty, averages) are not modelled; the track's half width is positive.
- Rounding of floating-point numbers in the simulator.
- Serial, I2C, storage and task-scheduling drivers, logging and timing; the control, actuator and
  steering-sensor components; the HCI ring buffer; ROS nodes, dashboards and dataset tools.
