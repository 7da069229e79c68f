/**
 * From the Orin's commands to the shared objects: encoded, framed, sent over a wire that adds stray
 * bytes and spoiled frames, received in chunks, parsed, decoded and written.
 */
module EndToEnd {
  import opened Bytes
  import opened Message
  import W = Wire
  import opened Crc8
  import opened Frames
  import opened KmObjects
  import opened KartMessages
  import opened KartOctets
  import opened KmComs

  /** A command: the floats as bit patterns, mission, state and shutdown as the octets or numbers sent. */
  datatype Command =
    | Throttle(effort: U32)
    | Braking(effort: U32)
    | Steering(angle: U32)
    | Mission(mission: Byte)
    | MachineState(state: Byte)
    | Heartbeat(content: seq<Byte>)
    | Shutdown(on: Byte)
    | Complete(throttle: U32, braking: U32, steering: U32, mission32: U32, state32: U32, shutdown: bool)

  /** The type octet of its frame. */
  function TypeOf(c: Command): Byte {
    match c
    case Throttle(_) => 0x20
    case Braking(_) => 0x21
    case Steering(_) => 0x22
    case Mission(_) => 0x23
    case MachineState(_) => 0x24
    case Heartbeat(_) => 0x25
    case Shutdown(_) => 0x26
    case Complete(_, _, _, _, _, _) => 0x27
  }

  function Struct(c: Command): seq<Slot>
    requires c.Complete?
  {
    [One(Num(c.throttle)), One(Num(c.braking)), One(Num(c.steering)), One(Num(c.mission32)), One(Num(c.state32)),
     One(Num(if c.shutdown then 1 else 0))]
  }

  /** The encoder's bytes for a message struct. */
  function Encoded(kinds: seq<Kind>, m: seq<Slot>): seq<Byte>
    requires Kart(kinds, 1) && TypedMsg(Fields(kinds, 1), m)
  {
    KartRoundTrip(kinds, m);
    W.EncodeMsg(Fields(kinds, 1), m).value
  }

  lemma FloatTyped(n: U32)
    ensures TypedMsg(Fields([Fixed32], 1), [One(Num(n))])
  {
    var fs, m := Fields([Fixed32], 1), [One(Num(n))];
    assert fs[0] == KartField(Fixed32, 1) && fs[1..] == [] && m[1..] == [];
    assert TypedSlot(fs[0], m[0]);
  }

  lemma {:induction false} TypedByField(fs: seq<Field>, m: seq<Slot>)
    requires |m| == |fs| && forall i :: 0 <= i < |fs| ==> TypedSlot(fs[i], m[i])
    ensures TypedMsg(fs, m)
  {
    if fs == [] {
    } else {
      TypedByField(fs[1..], m[1..]);
    }
  }

  lemma StructTyped(c: Command)
    requires c.Complete?
    ensures TypedMsg(Fields(ORIN_COMPLETE, 1), Struct(c))
  {
    var fs, m := Fields(ORIN_COMPLETE, 1), Struct(c);
    forall i | 0 <= i < 6
      ensures TypedSlot(fs[i], m[i])
    {
      assert fs[i] == KartField(ORIN_COMPLETE[i], 1 + i);
    }
    hide Fields, Struct, TypedSlot;
    TypedByField(fs, m);
  }

  function Payload(c: Command): seq<Byte> {
    match c
    case Throttle(n) => FloatTyped(n); Encoded(TARG_THROTTLE, [One(Num(n))])
    case Braking(n) => FloatTyped(n); Encoded(TARG_BRAKING, [One(Num(n))])
    case Steering(n) => FloatTyped(n); Encoded(TARG_STEERING, [One(Num(n))])
    case Mission(b) => [b]
    case MachineState(b) => [b]
    case Heartbeat(content) => content
    case Shutdown(b) => [b]
    case Complete(_, _, _, _, _, _) => StructTyped(c); Encoded(ORIN_COMPLETE, Struct(c))
  }

  /**
   * What the command asks for, by position in the table: throttle, braking and steering targets, mission,
   * machine state, and shutdown as 1.0f or 0.0f.
   */
  function Effect(t: Table, c: Command, float: U32 -> U32): Table {
    match c
    case Throttle(n) => t[0 := n]
    case Braking(n) => t[1 := n]
    case Steering(n) => t[2 := n]
    case Mission(b) => t[3 := float(b)]
    case MachineState(b) => t[4 := float(b)]
    case Heartbeat(_) => t
    case Shutdown(b) => t[5 := if b == 0 then 0 else 0x3F80_0000]
    case Complete(throttle, braking, steering, mission, state, shutdown) =>
      [throttle, braking, steering, float(mission), float(state), if shutdown then 0x3F80_0000 else 0] + t[6..]
  }

  /** What happens on the wire: a command's frame, a stray byte, a frame whose checksum does not match. */
  datatype Event = Sends(c: Command) | Stray(b: Byte) | Spoiled(typ: Byte, payload: seq<Byte>, crc: Byte)

  predicate Possible(e: Event) {
    match e
    case Sends(c) => c.Heartbeat? ==> |c.content| <= SAFE_PAYLOAD
    case Stray(b) => b != SOM
    case Spoiled(typ, payload, crc) => |payload| <= SAFE_PAYLOAD && crc != Crc(|payload|, typ, payload)
  }

  predicate AllPossible(es: seq<Event>) { forall i :: 0 <= i < |es| ==> Possible(es[i]) }

  /** Encoded commands are short. */
  lemma PayloadFits(c: Command)
    requires c.Heartbeat? ==> |c.content| <= SAFE_PAYLOAD
    ensures |Payload(c)| <= SAFE_PAYLOAD
  {
    SizeConstants();
    hide MaxSize, Fields, W.EncodeMsg, TypedMsg;
    if c.Throttle? || c.Braking? || c.Steering? {
      var n := if c.Steering? then c.angle else c.effort;
      FloatTyped(n);
      KartRoundTrip([Fixed32], [One(Num(n))]);
    } else if c.Complete? {
      StructTyped(c);
      KartRoundTrip(ORIN_COMPLETE, Struct(c));
    }
  }

  function ItemOf(e: Event): (item: Item)
    requires Possible(e)
    ensures Legal(item, SAFE_PAYLOAD)
  {
    match e
    case Sends(c) =>
      PayloadFits(c);
      Frame(TypeOf(c), Payload(c), Crc(|Payload(c)|, TypeOf(c), Payload(c)))
    case Stray(b) => Noise(b)
    case Spoiled(typ, payload, crc) => Frame(typ, payload, crc)
  }

  function Items(es: seq<Event>): (items: seq<Item>)
    requires AllPossible(es)
    ensures |items| == |es| && AllLegal(items, SAFE_PAYLOAD) && AllLegal(items, 255)
  {
    if es == [] then [] else [ItemOf(es[0])] + Items(es[1..])
  }

  /** The effects of the commands sent, one after the other. */
  function Effects(t: Table, es: seq<Event>, float: U32 -> U32): Table
    decreases es
  {
    if es == [] then t else Effects(if es[0].Sends? then Effect(t, es[0].c, float) else t, es[1..], float)
  }

  lemma EncodedNumbers(kinds: seq<Kind>, m: seq<Slot>)
    requires Kart(kinds, 1) && TypedMsg(Fields(kinds, 1), m)
    ensures forall i :: 0 <= i < |m| ==> IsNumber32(m[i])
    ensures Numbers(kinds, Encoded(kinds, m)) == Some(Members(m))
  {
    KartRoundTrip(kinds, m);
    KartNumbers(kinds, m);
  }

  lemma OneMember(n: U32)
    ensures Members([One(Num(n))]) == [n]
  {
    assert [One(Num(n))][1..] == [];
  }

  lemma {:induction false} MembersAt(m: seq<Slot>, i: nat)
    requires i < |m| && forall j :: 0 <= j < |m| ==> IsNumber32(m[j])
    ensures Members(m)[i] == m[i].v.n
  {
    if i == 0 {
    } else {
      MembersAt(m[1..], i - 1);
    }
  }

  lemma StructMembers(c: Command)
    requires c.Complete? && forall i :: 0 <= i < 6 ==> IsNumber32(Struct(c)[i])
    ensures Members(Struct(c)) ==
              [c.throttle, c.braking, c.steering, c.mission32, c.state32, if c.shutdown then 1 else 0]
  {
    MembersAt(Struct(c), 0);
    MembersAt(Struct(c), 1);
    MembersAt(Struct(c), 2);
    MembersAt(Struct(c), 3);
    MembersAt(Struct(c), 4);
    MembersAt(Struct(c), 5);
  }

  /** Dispatching the payload of a command does what the command asks for. */
  lemma CommandEffect(t: Table, c: Command, float: U32 -> U32)
    ensures Dispatch(t, ComsMsg(TypeOf(c), Payload(c)), float) == Effect(t, c, float)
  {
    hide Numbers, Encoded, Members, TypedMsg, Fields;
    if c.Throttle? || c.Braking? || c.Steering? {
      var n := if c.Steering? then c.angle else c.effort;
      FloatTyped(n);
      EncodedNumbers([Fixed32], [One(Num(n))]);
      OneMember(n);
    } else if c.Complete? {
      StructTyped(c);
      EncodedNumbers(ORIN_COMPLETE, Struct(c));
      StructMembers(c);
    }
  }

  lemma IntendedHead(es: seq<Event>)
    requires AllPossible(es) && es != []
    ensures Intended(Items(es)) ==
              (if es[0].Sends? then [ComsMsg(TypeOf(es[0].c), Payload(es[0].c))] else []) + Intended(Items(es[1..]))
  {
    hide Crc, Payload;
    assert Possible(es[0]);
    assert Items(es)[1..] == Items(es[1..]);
    if es[0].Sends? {
      PayloadFits(es[0].c);
    }
  }

  lemma {:induction false} IntendedEffects(t: Table, es: seq<Event>, float: U32 -> U32)
    requires AllPossible(es)
    ensures DispatchAll(t, Intended(Items(es)), float) == Effects(t, es, float)
    decreases es
  {
    if es == [] {
    } else {
      var e, rest := es[0], es[1..];
      assert Possible(e) && Items(es)[0] == ItemOf(e) && Items(es)[1..] == Items(rest);
      var now := if e.Sends? then [ComsMsg(TypeOf(e.c), Payload(e.c))] else [];
      IntendedHead(es);
      DispatchConcat(t, now, Intended(Items(rest)), float);
      hide Items, Intended, Dispatch, Payload;
      if e.Sends? {
        CommandEffect(t, e.c, float);
        assert now[1..] == [];
        IntendedEffects(Effect(t, e.c, float), rest, float);
      } else {
        IntendedEffects(t, rest, float);
      }
    }
  }

  /**
   * End to end: whatever the chunks, the stray bytes and the spoiled frames, the objects end as if
   * the commands had been carried out in the order they were sent.
   */
  lemma CommandsCarriedOut(t: Table, es: seq<Event>, chunks: seq<seq<Byte>>, float: U32 -> U32)
    requires AllPossible(es) && Chunked(chunks) && Concat(chunks) == Frames.Wire(Items(es))
    ensures DispatchAll(t, Run([], chunks).0, float) == Effects(t, es, float)
  {
    Delivery(Items(es), chunks);
    IntendedEffects(t, es, float);
  }

  /** The same of the code: an empty link that is handed these chunks leaves these objects. */
  method ReceiveCommands(link: Link, chunks: seq<seq<Byte>>, ghost es: seq<Event>)
    requires link.Valid() && link.rxBuffer as object != link.objects.values && link.Contents() == []
    requires AllPossible(es) && Chunked(chunks) && Concat(chunks) == Frames.Wire(Items(es))
    modifies link, link.rxBuffer, link.objects.values
    ensures link.Valid() && link.objects.Contents() == Effects(old(link.objects.Contents()), es, link.float)
  {
    CommandsCarriedOut(link.objects.Contents(), es, chunks, link.float);
    link.RunTask(chunks);
  }

  // ----- Octet by octet

  lemma StructSlots(c: Command)
    requires c.Complete?
    ensures Struct(c) ==
              Slots([c.throttle, c.braking, c.steering, c.mission32, c.state32, if c.shutdown then 1 else 0])
  {
  }

  /** The payload of a command: the octets of its message, members that are zero left out. */
  lemma PayloadOctets(c: Command)
    ensures c.Throttle? || c.Braking? ==> Payload(c) == Float(false, 0x0D, c.effort)
    ensures c.Steering? ==> Payload(c) == Float(false, 0x0D, c.angle)
    ensures c.Complete? ==>
              Payload(c) ==
                OrinComplete(false, c.throttle, c.braking, c.steering, c.mission32, c.state32, c.shutdown)
  {
    if c.Throttle? || c.Braking? || c.Steering? {
      var n := if c.Steering? then c.angle else c.effort;
      OneFloatOctets(n, false);
      assert Slots([n]) == [One(Num(n))];
    } else if c.Complete? {
      OrinCompleteOctets(c.throttle, c.braking, c.steering, c.mission32, c.state32, c.shutdown, false);
      StructSlots(c);
    }
    hide Float, OrinComplete, W.EncodeMsg, W.DecodeMsg, Fields, TypedMsg, Slots, Struct;
  }

  /** The frame of a command on the wire. */
  lemma FrameOctets(c: Command)
    requires c.Heartbeat? ==> |c.content| <= SAFE_PAYLOAD
    ensures |Payload(c)| <= 188
    ensures ItemBytes(ItemOf(Sends(c))) ==
              [0xAA, |Payload(c)|, TypeOf(c)] + Payload(c) + [Crc(|Payload(c)|, TypeOf(c), Payload(c))]
  {
    PayloadFits(c);
    hide Payload, Crc;
  }

  lemma NumbersRead(kinds: seq<Kind>, n: seq<U32>, sent: seq<Byte>, read: seq<Byte>)
    requires HasOctets(kinds, n, sent, read)
    ensures Numbers(kinds, read).Some? && |Numbers(kinds, read).value| == |n| == |kinds|
    ensures forall i :: 0 <= i < |n| ==> Numbers(kinds, read).value[i] == n[i]
  {
    var m := Slots(n);
    KartNumbers(kinds, m);
    hide W.DecodeMsg, TypedMsg, Fields, W.EncodeMsg;
    assert Numbers(kinds, read) == Some(Members(m));
    forall i | 0 <= i < |n|
      ensures Members(m)[i] == n[i]
    {
      MembersAt(m, i);
    }
  }

  /** What each frame type does to the table, from the octets of its payload, zeros written out or not. */
  lemma OctetsCarriedOut(t: Table, n: U32, b: Byte, rest: seq<Byte>, zeros: bool, float: U32 -> U32)
    ensures Dispatch(t, ComsMsg(0x20, Float(zeros, 0x0D, n)), float) == t[0 := n]
    ensures Dispatch(t, ComsMsg(0x21, Float(zeros, 0x0D, n)), float) == t[1 := n]
    ensures Dispatch(t, ComsMsg(0x22, Float(zeros, 0x0D, n)), float) == t[2 := n]
    ensures Dispatch(t, ComsMsg(0x23, [b] + rest), float) == t[3 := float(b)]
    ensures Dispatch(t, ComsMsg(0x24, [b] + rest), float) == t[4 := float(b)]
    ensures Dispatch(t, ComsMsg(0x26, [b] + rest), float) == t[5 := if b == 0 then 0 else 0x3F80_0000]
  {
    OneFloatOctets(n, zeros);
    hide Numbers, Float, HasOctets;
    var p, q := Float(false, 0x0D, n), Float(zeros, 0x0D, n);
    NumbersRead(TARG_THROTTLE, [n], p, q);
    NumbersRead(TARG_BRAKING, [n], p, q);
    NumbersRead(TARG_STEERING, [n], p, q);
  }

  /** The same of a complete command. */
  lemma CompleteCarriedOut(t: Table, throttle: U32, braking: U32, steering: U32, mission: U32, state: U32,
                           shutdown: bool, zeros: bool, float: U32 -> U32)
    ensures Dispatch(t, ComsMsg(0x27, OrinComplete(zeros, throttle, braking, steering, mission, state, shutdown)),
                float) ==
              [throttle, braking, steering, float(mission), float(state), if shutdown then 0x3F80_0000 else 0] + t[6..]
  {
    OrinCompleteOctets(throttle, braking, steering, mission, state, shutdown, zeros);
    hide Numbers, OrinComplete, HasOctets;
    NumbersRead(ORIN_COMPLETE, [throttle, braking, steering, mission, state, if shutdown then 1 else 0],
      OrinComplete(false, throttle, braking, steering, mission, state, shutdown),
      OrinComplete(zeros, throttle, braking, steering, mission, state, shutdown));
  }

  // ----- What no message can do

  /** Types 0x20 to 0x24 write the objects 0 to 4, type 0x26 object 5, and type 0x27 all six. */
  predicate Writes(typ: Byte, id: nat) {
    || (0x20 <= typ <= 0x24 && id == typ - 0x20)
    || (typ == 0x26 && id == 5)
    || (typ == 0x27 && id <= 5)
  }

  lemma OneUnchanged(t: Table, msg: ComsMsg, id: nat, float: U32 -> U32)
    requires id < KM_OBJ_LAST && !Writes(msg.typ, id)
    ensures Dispatch(t, msg, float)[id] == t[id]
  {
    hide Numbers;
  }

  /** An object that none of the messages' types writes keeps its value, whatever the payloads. */
  lemma {:induction false} OthersUnchanged(t: Table, msgs: seq<ComsMsg>, id: nat, float: U32 -> U32)
    requires id < KM_OBJ_LAST && forall k :: 0 <= k < |msgs| ==> !Writes(msgs[k].typ, id)
    ensures DispatchAll(t, msgs, float)[id] == t[id]
    decreases msgs
  {
    if msgs == [] {
    } else {
      assert !Writes(msgs[0].typ, id);
      OneUnchanged(t, msgs[0], id, float);
      OthersUnchanged(Dispatch(t, msgs[0], float), msgs[1..], id, float);
    }
  }

  /** The telemetry half of the table is never written by a received message. */
  lemma TelemetryUntouched(t: Table, msgs: seq<ComsMsg>, id: nat, float: U32 -> U32)
    requires 6 <= id < KM_OBJ_LAST
    ensures DispatchAll(t, msgs, float)[id] == t[id]
  {
    OthersUnchanged(t, msgs, id, float);
  }

  /** A message of a type whose payload is decoded, with a payload that does not decode. */
  predicate Undecodable(msg: ComsMsg) {
    || (msg.typ == ORIN_TARG_THROTTLE && Numbers(TARG_THROTTLE, msg.payload).None?)
    || (msg.typ == ORIN_TARG_BRAKING && Numbers(TARG_BRAKING, msg.payload).None?)
    || (msg.typ == ORIN_TARG_STEERING && Numbers(TARG_STEERING, msg.payload).None?)
    || (msg.typ == ORIN_COMPLETE_TYPE && Numbers(ORIN_COMPLETE, msg.payload).None?)
  }

  function Decodable(msgs: seq<ComsMsg>): seq<ComsMsg> {
    if msgs == [] then []
    else if Undecodable(msgs[0]) then Decodable(msgs[1..]) else [msgs[0]] + Decodable(msgs[1..])
  }

  /** Messages with payloads that do not decode might as well not have come, wherever they stand among others. */
  lemma {:induction false} UndecodableIgnored(t: Table, msgs: seq<ComsMsg>, float: U32 -> U32)
    ensures DispatchAll(t, msgs, float) == DispatchAll(t, Decodable(msgs), float)
    decreases msgs
  {
    hide Numbers;
    if msgs == [] {
    } else {
      var u := Dispatch(t, msgs[0], float);
      UndecodableIgnored(u, msgs[1..], float);
      if Undecodable(msgs[0]) {
        assert u == t;
      } else {
        assert Decodable(msgs)[1..] == Decodable(msgs[1..]);
      }
    }
  }
}
