/**
 * The serial link of the firmware: the frame it lays out, the receive buffer it fills and compacts
 * in place, and the dispatcher that turns payloads into writes to the shared objects.
 */
module KmComs {
  import opened Bytes
  import opened Message
  import opened Wire
  import opened Crc8
  import opened Frames
  import opened KmObjects
  import opened KartMessages
  import opened Descriptors
  import InputStream
  import Decoder

  // Messages from the Orin that write objects; a heartbeat, 0x25, writes none.
  const ORIN_TARG_THROTTLE: Byte := 0x20
  const ORIN_TARG_BRAKING: Byte := 0x21
  const ORIN_TARG_STEERING: Byte := 0x22
  const ORIN_MISION: Byte := 0x23
  const ORIN_MACHINE_STATE: Byte := 0x24
  const ORIN_SHUTDOWN: Byte := 0x26
  const ORIN_COMPLETE_TYPE: Byte := 0x27

  /** 1.0f */
  const ONE_FLOAT: U32 := 0x3F80_0000

  // ----- What a message does to the objects

  function Flag(b: bool): U32 { if b then ONE_FLOAT else 0 }

  predicate IsNumber32(s: Slot) { s.One? && s.v.Num? && 0 <= s.v.n < TWO_32 }

  /** The members of a kart message struct. */
  function Members(m: seq<Slot>): (n: seq<int>)
    requires forall i :: 0 <= i < |m| ==> IsNumber32(m[i])
    ensures |n| == |m| && forall i :: 0 <= i < |n| ==> 0 <= n[i] < TWO_32
  {
    if m == [] then []
    else
      assert IsNumber32(m[0]);
      [m[0].v.n] + Members(m[1..])
  }

  lemma KartNumber(k: Kind, tag: U32, s: Slot)
    requires KartKind(k) && TypedSlot(KartField(k, tag), s)
    ensures IsNumber32(s)
  {
  }

  lemma KartNumbers(kinds: seq<Kind>, m: seq<Slot>)
    requires Kart(kinds, 1) && TypedMsg(Fields(kinds, 1), m)
    ensures |m| == |kinds| && forall i :: 0 <= i < |m| ==> IsNumber32(m[i])
  {
    assert |m| == |Fields(kinds, 1)|;
    hide TypedMsg, Fields, IsNumber32;
    forall i | 0 <= i < |m|
      ensures IsNumber32(m[i])
    {
      TypedAt(Fields(kinds, 1), m, i);
      KartNumber(kinds[i], 1 + i, m[i]);
    }
  }

  /** The numbers of a kart message in a payload, if it decodes. */
  function Numbers(kinds: seq<Kind>, payload: seq<Byte>): (r: Option<seq<int>>)
    requires Kart(kinds, 1)
    ensures r.Some? ==> |r.value| == |kinds| && forall i :: 0 <= i < |kinds| ==> 0 <= r.value[i] < TWO_32
  {
    KartFieldsOk(kinds, 1);
    DefaultTyped(Fields(kinds, 1));
    match DecodeMsg(Fields(kinds, 1), DefaultMsg(Fields(kinds, 1)), payload, false)
    case Fail => None
    case Ok(m, _) =>
      KartNumbers(kinds, m);
      Some(Members(m))
  }

  function SetFirst(t: Table, id: nat, n: Option<seq<int>>): Table
    requires id < KM_OBJ_LAST
    requires n.Some? ==> |n.value| == 1 && 0 <= n.value[0] < TWO_32
  {
    if n.Some? then t[id := n.value[0]] else t
  }

  function SetAll(t: Table, n: seq<int>, float: U32 -> U32): Table
    requires |n| == 6 && forall i :: 0 <= i < |n| ==> 0 <= n[i] < TWO_32
  {
    t[TARGET_THROTTLE := n[0]][TARGET_BRAKING := n[1]][TARGET_STEERING := n[2]]
    [MISION_ORIN := float(n[3])][MACHINE_STATE_ORIN := float(n[4])][SHUTDOWN_ORIN := Flag(n[5] != 0)]
  }

  /** The objects after a message. float is the conversion of an integer to a float's bit pattern. */
  function Dispatch(t: Table, msg: ComsMsg, float: U32 -> U32): Table {
    if msg.typ == ORIN_TARG_THROTTLE then SetFirst(t, TARGET_THROTTLE, Numbers(TARG_THROTTLE, msg.payload))
    else if msg.typ == ORIN_TARG_BRAKING then SetFirst(t, TARGET_BRAKING, Numbers(TARG_BRAKING, msg.payload))
    else if msg.typ == ORIN_TARG_STEERING then SetFirst(t, TARGET_STEERING, Numbers(TARG_STEERING, msg.payload))
    else if msg.typ == ORIN_MISION && msg.payload != [] then t[MISION_ORIN := float(msg.payload[0])]
    else if msg.typ == ORIN_MACHINE_STATE && msg.payload != [] then t[MACHINE_STATE_ORIN := float(msg.payload[0])]
    else if msg.typ == ORIN_SHUTDOWN && msg.payload != [] then t[SHUTDOWN_ORIN := Flag(msg.payload[0] != 0)]
    else if msg.typ == ORIN_COMPLETE_TYPE then
      match Numbers(ORIN_COMPLETE, msg.payload)
      case None => t
      case Some(n) => SetAll(t, n, float)
    else t
  }

  function DispatchAll(t: Table, msgs: seq<ComsMsg>, float: U32 -> U32): Table
    decreases msgs
  {
    if msgs == [] then t else DispatchAll(Dispatch(t, msgs[0], float), msgs[1..], float)
  }

  lemma {:induction false} DispatchConcat(t: Table, a: seq<ComsMsg>, b: seq<ComsMsg>, float: U32 -> U32)
    ensures DispatchAll(t, a + b, float) == DispatchAll(DispatchAll(t, a, float), b, float)
    decreases a
  {
    if a == [] {
      assert a + b == b;
    } else {
      assert (a + b)[1..] == a[1..] + b;
      DispatchConcat(Dispatch(t, a[0], float), a[1..], b, float);
    }
  }

  // ----- Sending

  lemma FrameBytes(s: seq<Byte>, typ: Byte, payload: seq<Byte>, crc: Byte)
    requires |payload| <= MAX_PAYLOAD && |s| == |payload| + 4
    requires s[0] == SOM && s[1] == |payload| && s[2] == typ && s[3 + |payload|] == crc
    requires forall i :: 0 <= i < |payload| ==> s[3 + i] == payload[i]
    ensures s == ItemBytes(Frame(typ, payload, crc))
  {
    assert s == [SOM, |payload|, typ] + payload + [crc];
  }

  /** The frame KM_COMS_SendMsg lays out is the one the receiver looks for, with its checksum right. */
  method LayOutFrame(typ: Byte, payload: seq<Byte>, len: Byte) returns (frame: array<Byte>)
    requires |payload| == len <= MAX_PAYLOAD
    ensures fresh(frame) && frame.Length == RX_BUFFER
    ensures var item := Frame(typ, payload, Crc(len, typ, payload));
            Legal(item, MAX_PAYLOAD) && Intact(item) && frame[..len as int + 4] == ItemBytes(item)
  {
    var crc := ComputeCrc(len, typ, payload);
    hide Crc;
    frame := new Byte[RX_BUFFER];
    var n: nat := |payload|;
    frame[0] := SOM;
    frame[1] := len;
    frame[2] := typ;
    forall i | 3 <= i < 3 + n {
      frame[i] := payload[i - 3];
    }
    frame[3 + n] := crc;
    FrameBytes(frame[..n + 4], typ, payload, crc);
  }

  // ----- What the receiver computes

  /** pb_decode into a zeroed message struct. */
  method DecodePayload(kinds: seq<Kind>, payload: seq<Byte>) returns (n: Option<seq<int>>)
    requires Kart(kinds, 1)
    ensures n == Numbers(kinds, payload)
  {
    KartFieldsOk(kinds, 1);
    KartDescribed(kinds);
    hide DecodeMsg, Fields, DefaultMsg, Describes;
    ghost var fs := Fields(kinds, 1);
    var dest := new Decoder.Struct(seq(|kinds|, i => One(Num(0))));
    var stream := new InputStream.IStream(payload, 0, |payload|);
    assert stream.Remaining() == payload;
    var ok := Decoder.DecodeExtended(stream, KartDescriptor(kinds), fs, dest, false, false, false);
    if !ok {
      return None;
    }
    KartNumbers(kinds, dest.slots);
    n := Some(Members(dest.slots));
  }

  /** The message of the frame at p, if its checksum is right. */
  function FirstAt(s: seq<Byte>, p: nat): seq<ComsMsg>
    requires p + 4 <= |s| && p + 4 + s[p + 1] as int <= |s|
  {
    var end := p + 3 + s[p + 1] as int;
    if Crc(s[p + 1], s[p + 2], s[p + 3..end]) == s[end] then [ComsMsg(s[p + 2], s[p + 3..end])] else []
  }

  lemma FirstIs(s: seq<Byte>, p: nat)
    requires p + 4 <= |s| && p + 4 + s[p + 1] as int <= |s|
    ensures |s[p..]| >= FrameLength(s[p..]) && First(s[p..]) == FirstAt(s, p)
  {
    hide Crc;
    var rest, n := s[p..], 4 + s[p + 1] as int;
    assert FrameLength(rest) == n;
    assert rest[3..n - 1] == s[p + 3..p + n - 1] && rest[n - 1] == s[p + n - 1];
  }

  /** A step of the parser at position p of the buffer. */
  lemma ParseAt(s: seq<Byte>, p: nat)
    requires p <= |s|
    ensures |s| - p < 4 || (s[p] == SOM && |s| - p < 4 + s[p + 1] as int) ==> Parse(s[p..]) == ([], s[p..])
    ensures |s| - p >= 4 && s[p] != SOM ==> Parse(s[p..]) == Parse(s[p + 1..])
    ensures |s| - p >= 4 && s[p] == SOM && |s| - p >= 4 + s[p + 1] as int ==>
              var next := p + 4 + s[p + 1] as int;
              Parse(s[p..]).0 == FirstAt(s, p) + Parse(s[next..]).0 && Parse(s[p..]).1 == Parse(s[next..]).1
  {
    ParseStep(s[p..]);
    hide Parse, First, Crc, FirstAt;
    assert |s| - p >= 4 ==> s[p..][0] == s[p] && s[p..][1] == s[p + 1] && s[p..][1..] == s[p + 1..];
    if |s| - p >= 4 && s[p] == SOM && |s| - p >= 4 + s[p + 1] as int {
      assert s[p..][FrameLength(s[p..])..] == s[p + 4 + s[p + 1] as int..];
      FirstIs(s, p);
    }
  }

  lemma Regroup(a: seq<ComsMsg>, b: seq<ComsMsg>, c: seq<ComsMsg>)
    ensures a + (b + c) == a + b + c
  {
  }

  lemma ParseStart(s: seq<Byte>, t: Table, float: U32 -> U32)
    ensures s[0..] == s && [] + Parse(s).0 == Parse(s).0 && DispatchAll(t, [], float) == t
  {
  }

  lemma DispatchFirst(t: Table, done: seq<ComsMsg>, msg: ComsMsg, float: U32 -> U32)
    ensures DispatchAll(t, done + [msg], float) == Dispatch(DispatchAll(t, done, float), msg, float)
    ensures done + [] == done
  {
    DispatchConcat(t, done, [msg], float);
    hide Dispatch;
    assert [msg][1..] == [];
    var u := DispatchAll(t, done, float);
    assert DispatchAll(u, [msg], float) == DispatchAll(Dispatch(u, msg, float), [], float);
  }

  lemma RunStart(s: seq<Byte>, chunks: seq<seq<Byte>>, t: Table, float: U32 -> U32)
    ensures chunks[0..] == chunks && [] + Run(s, chunks).0 == Run(s, chunks).0 && DispatchAll(t, [], float) == t
  {
  }

  lemma RunEnd(s: seq<Byte>, chunks: seq<seq<Byte>>)
    ensures Run(s, chunks[|chunks|..]) == ([], s)
  {
  }

  lemma RunStep(buffer: seq<Byte>, chunks: seq<seq<Byte>>, k: nat)
    requires k < |chunks| && |buffer| <= RX_BUFFER
    ensures chunks[k][..|chunks[k]|] == chunks[k] && (chunks[k] == [] ==> Accept(buffer, chunks[k]) == buffer)
    ensures var r := Parse(Accept(buffer, chunks[k]));
            && Run(buffer, chunks[k..]).0 == r.0 + Run(r.1, chunks[k + 1..]).0
            && Run(buffer, chunks[k..]).1 == Run(r.1, chunks[k + 1..]).1
  {
    hide Parse;
    assert chunks[k..][1..] == chunks[k + 1..];
  }

  // ----- Receiving

  class Link {
    const rxBuffer: array<Byte>
    var rxBufferLen: nat
    const objects: Objects
    const float: U32 -> U32

    ghost predicate Valid()
      reads this
    {
      rxBuffer.Length == RX_BUFFER && rxBufferLen <= RX_BUFFER && objects.Valid()
    }

    ghost function Contents(): seq<Byte>
      requires Valid()
      reads this, rxBuffer
    {
      rxBuffer[..rxBufferLen]
    }

    constructor (table: Objects, float: U32 -> U32)
      requires table.Valid()
      ensures Valid() && fresh(rxBuffer) && Contents() == [] && objects == table && this.float == float
    {
      rxBuffer := new Byte[RX_BUFFER];
      rxBufferLen := 0;
      objects := table;
      this.float := float;
    }

    /**
     * km_coms_ReceiveMsg: uart is what the driver holds, lenRead what it hands over when asked for a
     * chunk. Without the mutex what was read is lost.
     */
    method ReceiveMsg(uart: seq<Byte>, lenRead: nat, granted: bool)
      requires Valid() && lenRead <= |uart| && lenRead <= RX_CHUNK
      modifies this, rxBuffer
      ensures Valid()
      ensures Contents() ==
                if lenRead == 0 || !granted then old(Contents()) else Accept(old(Contents()), uart[..lenRead])
    {
      if |uart| == 0 {
        return;
      }
      if lenRead == 0 {
        return;
      }
      if !granted {
        return;
      }
      if rxBufferLen + lenRead > RX_BUFFER {
        rxBufferLen := 0;
      }
      ghost var kept := rxBuffer[..rxBufferLen];
      forall i | 0 <= i < lenRead {
        rxBuffer[rxBufferLen + i] := uart[i];
      }
      assert rxBuffer[..rxBufferLen + lenRead] == kept + uart[..lenRead];
      rxBufferLen := rxBufferLen + lenRead;
    }

    /** The six writes of a complete command. */
    method WriteAll(n: seq<int>)
      requires objects.Valid() && |n| == 6 && forall i :: 0 <= i < |n| ==> 0 <= n[i] < TWO_32
      modifies objects.values
      ensures objects.Contents() == SetAll(old(objects.Contents()), n, float)
    {
      var _ := objects.SetObjectValue(TARGET_THROTTLE, n[0]);
      var _ := objects.SetObjectValue(TARGET_BRAKING, n[1]);
      var _ := objects.SetObjectValue(TARGET_STEERING, n[2]);
      var _ := objects.SetObjectValue(MISION_ORIN, float(n[3]));
      var _ := objects.SetObjectValue(MACHINE_STATE_ORIN, float(n[4]));
      var _ := objects.SetObjectValue(SHUTDOWN_ORIN, if n[5] != 0 then ONE_FLOAT else 0);
    }

    /** KM_COMS_ProccessPayload */
    method ProcessPayload(msg: ComsMsg)
      requires objects.Valid()
      modifies objects.values
      ensures objects.Contents() == Dispatch(old(objects.Contents()), msg, float)
    {
      hide Numbers;
      var n;
      if msg.typ == ORIN_TARG_THROTTLE {
        n := DecodePayload(TARG_THROTTLE, msg.payload);
        if n.Some? {
          var _ := objects.SetObjectValue(TARGET_THROTTLE, n.value[0]);
        }
      } else if msg.typ == ORIN_TARG_BRAKING {
        n := DecodePayload(TARG_BRAKING, msg.payload);
        if n.Some? {
          var _ := objects.SetObjectValue(TARGET_BRAKING, n.value[0]);
        }
      } else if msg.typ == ORIN_TARG_STEERING {
        n := DecodePayload(TARG_STEERING, msg.payload);
        if n.Some? {
          var _ := objects.SetObjectValue(TARGET_STEERING, n.value[0]);
        }
      } else if msg.typ == ORIN_MISION {
        if |msg.payload| >= 1 {
          var _ := objects.SetObjectValue(MISION_ORIN, float(msg.payload[0]));
        }
      } else if msg.typ == ORIN_MACHINE_STATE {
        if |msg.payload| >= 1 {
          var _ := objects.SetObjectValue(MACHINE_STATE_ORIN, float(msg.payload[0]));
        }
      } else if msg.typ == ORIN_SHUTDOWN {
        if |msg.payload| >= 1 {
          var _ := objects.SetObjectValue(SHUTDOWN_ORIN, if msg.payload[0] != 0 then ONE_FLOAT else 0);
        }
      } else if msg.typ == ORIN_COMPLETE_TYPE {
        n := DecodePayload(ORIN_COMPLETE, msg.payload);
        if n.Some? {
          WriteAll(n.value);
        }
      }
    }

    /** The last step of KM_COMS_ProccessMsgs. */
    method Compact(processed: nat)
      requires Valid() && processed <= rxBufferLen
      modifies this, rxBuffer
      ensures Valid() && Contents() == old(Contents())[processed..]
    {
      ghost var s := Contents();
      if 0 < processed < rxBufferLen {
        forall i | 0 <= i < rxBufferLen - processed {
          rxBuffer[i] := rxBuffer[processed + i];
        }
        rxBufferLen := rxBufferLen - processed;
      } else if processed >= rxBufferLen {
        rxBufferLen := 0;
      }
      assert Contents() == s[processed..];
    }

    /** A complete frame in the buffer: its message is dispatched if the checksum is right. */
    method ProcessFrame(p: nat)
      requires Valid() && rxBuffer as object != objects.values
      requires p + 4 <= rxBufferLen && p + 4 + rxBuffer[p + 1] as int <= rxBufferLen
      modifies objects.values
      ensures objects.Contents() == DispatchAll(old(objects.Contents()), FirstAt(Contents(), p), float)
    {
      hide Dispatch, Crc;
      ghost var s, t := Contents(), objects.Contents();
      var payloadLen := rxBuffer[p + 1];
      var end := p + 3 + payloadLen as int;
      var typ, payload, crc := rxBuffer[p + 2], rxBuffer[p + 3..end], rxBuffer[end];
      assert payload == s[p + 3..end];
      DispatchFirst(t, [], ComsMsg(typ, payload), float);
      assert [] + [ComsMsg(typ, payload)] == [ComsMsg(typ, payload)];
      var crcCalc := ComputeCrc(payloadLen, typ, payload);
      if crcCalc == crc {
        ProcessPayload(ComsMsg(typ, payload));
      }
    }

    /**
     * KM_COMS_ProccessMsgs: dispatch what is complete, move the rest to the front of the buffer.
     * Without the mutex everything waits.
     */
    method ProcessMsgs(granted: bool)
      requires Valid() && rxBuffer as object != objects.values
      modifies this, rxBuffer, objects.values
      ensures Valid() && Contents() == if granted then Parse(old(Contents())).1 else old(Contents())
      ensures objects.Contents() ==
                if granted then DispatchAll(old(objects.Contents()), Parse(old(Contents())).0, float)
                else old(objects.Contents())
    {
      hide Parse, First, Dispatch, DispatchAll, Crc, FrameLength, FirstAt;
      if !granted {
        return;
      }
      ghost var s, t := Contents(), objects.Contents();
      ghost var done: seq<ComsMsg> := [];
      var processed: nat, waiting := 0, false;
      ParseStart(s, t, float);
      while !waiting && rxBufferLen - processed >= 4
        invariant Valid() && processed <= rxBufferLen && Contents() == s
        invariant Parse(s).0 == done + Parse(s[processed..]).0 && Parse(s).1 == Parse(s[processed..]).1
        invariant objects.Contents() == DispatchAll(t, done, float)
        invariant waiting ==> Parse(s[processed..]) == ([], s[processed..])
        decreases !waiting, rxBufferLen - processed
      {
        ParseAt(s, processed);
        assert rxBuffer[processed] == s[processed] && rxBuffer[processed + 1] == s[processed + 1];
        if rxBuffer[processed] != SOM {
          processed := processed + 1;
        } else {
          var totalLen := 4 + rxBuffer[processed + 1] as int;
          if rxBufferLen - processed < totalLen {
            waiting := true;
          } else {
            ghost var first := FirstAt(s, processed);
            ProcessFrame(processed);
            DispatchConcat(t, done, first, float);
            Regroup(done, first, Parse(s[processed + totalLen..]).0);
            done := done + first;
            processed := processed + totalLen;
          }
        }
      }
      ParseAt(s, processed);
      assert done + [] == done;
      Compact(processed);
    }

    /** comms_task, once for every chunk the driver hands over, with the mutex that no other task takes. */
    method RunTask(chunks: seq<seq<Byte>>)
      requires Valid() && rxBuffer as object != objects.values && Chunked(chunks)
      modifies this, rxBuffer, objects.values
      ensures Valid() && Contents() == Run(old(Contents()), chunks).1
      ensures objects.Contents() == DispatchAll(old(objects.Contents()), Run(old(Contents()), chunks).0, float)
    {
      hide Parse, Run, Accept, DispatchAll;
      ghost var s, t := Contents(), objects.Contents();
      ghost var done: seq<ComsMsg> := [];
      RunStart(s, chunks, t, float);
      for k := 0 to |chunks|
        invariant Valid()
        invariant Run(s, chunks).0 == done + Run(Contents(), chunks[k..]).0
        invariant Run(s, chunks).1 == Run(Contents(), chunks[k..]).1
        invariant objects.Contents() == DispatchAll(t, done, float)
      {
        ghost var before := Contents();
        RunStep(before, chunks, k);
        ReceiveMsg(chunks[k], |chunks[k]|, true);
        ghost var now := Parse(Contents()).0;
        ProcessMsgs(true);
        DispatchConcat(t, done, now, float);
        Regroup(done, now, Run(Contents(), chunks[k + 1..]).0);
        done := done + now;
      }
      RunEnd(Contents(), chunks);
      assert done + [] == done;
    }
  }
}
