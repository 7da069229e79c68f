/** The octets of the kart's messages, member by member, with the keys of the generated header written out. */
module KartOctets {
  import opened Bytes
  import opened Varint
  import opened Message
  import opened Wire
  import opened SchemaEvolution
  import opened WireOctets
  import opened ScalarMessages
  import opened KartMessages

  // ----- Records, with or without those that carry zero

  function Float(zeros: bool, key: Byte, n: U32): seq<Byte> { if n == 0 && !zeros then [] else [key] + Four(n) }

  function Number(zeros: bool, key: Byte, n: U32): seq<Byte> {
    if n == 0 && !zeros then [] else [key] + VarintBytes(n)
  }

  function Switch(zeros: bool, key: Byte, on: bool): seq<Byte> {
    if on then [key, 1] else if zeros then [key, 0] else []
  }

  /** The record of a member of type k. */
  function Part(zeros: bool, k: Kind, tag: nat, n: U32): seq<Byte>
    requires 0 < tag < 16
  {
    if k.Fixed32? then Float(zeros, tag * 8 + 5, n) else Number(zeros, tag * 8, n)
  }

  lemma SwitchNumber(zeros: bool, key: Byte, on: bool)
    ensures Number(zeros, key, if on then 1 else 0) == Switch(zeros, key, on)
  {
  }

  lemma SwitchPart(zeros: bool, tag: nat, on: bool)
    requires 0 < tag < 16
    ensures Part(zeros, Bool, tag, if on then 1 else 0) == Switch(zeros, tag * 8, on)
  {
  }

  predicate Fits(k: Kind, n: U32) { k.Bool? ==> n < 2 }

  lemma KeyOctet(key: nat)
    requires key < 0x80
    ensures VarintBytes(key) == [key]
  {
  }

  /** What the encoder emits for a member: nothing if it is zero. */
  lemma MemberOctets(k: Kind, tag: nat, n: U32)
    requires KartKind(k) && 0 < tag < 16 && Fits(k, n)
    ensures TypedSlot(KartField(k, tag), One(Num(n)))
    ensures EncodeField(KartField(k, tag), One(Num(n))) == Some(Part(false, k, tag, n))
  {
    var f, v := KartField(k, tag), Num(n);
    assert TypedValue(f, v);
    if n != 0 {
      RecordOctets(f, v);
      NumberOctets(k, SizeOf(k), n);
      KeyOctet(tag * 8 + if k.Fixed32? then 5 else 0);
    }
    hide VarintBytes, NumBytes, Four;
  }

  // ----- Reading records

  lemma NumberRead(k: Kind, n: U32, s: seq<Byte>)
    requires KartKind(k) && Fits(k, n)
    ensures DecodeNum(k, SizeOf(k), (if k.Fixed32? then Four(n) else VarintBytes(n)) + s) == Ok(n, s)
  {
    NumRoundTrip(k, SizeOf(k), n, s);
    NumberOctets(k, SizeOf(k), n);
  }

  function WireTypeOf(k: Kind): nat { if k.Fixed32? then 5 else 0 }

  function Payload(k: Kind, n: U32): seq<Byte> { if k.Fixed32? then Four(n) else VarintBytes(n) }

  lemma PartIs(k: Kind, tag: nat, n: U32, s: seq<Byte>)
    requires 0 < tag < 16
    ensures Part(true, k, tag, n) + s == VarintBytes(tag * 8 + WireTypeOf(k)) + (Payload(k, n) + s)
  {
    KeyOctet(tag * 8 + WireTypeOf(k));
    hide VarintBytes, Four;
  }

  lemma PartTaken(kinds: seq<Kind>, m: seq<Slot>, i: nat, n: U32, s: seq<Byte>)
    requires Kart(kinds, 1) && i < |kinds| && Fits(kinds[i], n) && Scalar(Fields(kinds, 1))
    requires TypedMsg(Fields(kinds, 1), m)
    ensures i + 1 < 16 && FieldsOk(Fields(kinds, 1)) && WireTypeOf(kinds[i]) < 8
    ensures |m| == |kinds| && TypedMsg(Fields(kinds, 1), m[i := One(Num(n))])
    ensures TakeField(Fields(kinds, 1), Progress(m, {}), i + 1, WireTypeOf(kinds[i]), Payload(kinds[i], n) + s) ==
              Ok(Progress(m[i := One(Num(n))], {}), s)
  {
    var fs, k := Fields(kinds, 1), kinds[i];
    assert |m| == |fs| && KartKind(k) && fs[i] == KartField(k, i + 1);
    MemberOctets(k, i + 1, n);
    TypedUpdate(fs, m, i, One(Num(n)));
    IndexOfUnique(fs, i);
    NumberRead(k, n, s);
    hide VarintBytes, Four, DecodeNum, ScalarField, TypedSlot, Fields, TypedMsg, TakeField;
    assert FieldsOk(fs);
    TakeScalar(fs, Progress(m, {}), i + 1, WireTypeOf(k), Payload(k, n) + s);
  }

  /** One turn of the decoder's loop, at a record that makes m of what was there. */
  lemma OneTurn(fs: seq<Field>, prior: seq<Slot>, m: seq<Slot>, tag: nat, w: nat, t: seq<Byte>, s: seq<Byte>)
    requires Scalar(fs) && TypedMsg(fs, prior) && TypedMsg(fs, m) && 0 < tag < 16 && w < 8
    requires TakeField(fs, Progress(prior, {}), tag, w, t) == Ok(Progress(m, {}), s)
    ensures DecodeMsg(fs, prior, VarintBytes(tag * 8 + w) + t, false) == DecodeMsg(fs, m, s, false)
  {
    hide VarintBytes, TakeField, TypedMsg, DecodeMsg, FieldsOk, ScalarField;
    KeyDecides(fs, Progress(prior, {}), tag, w, t, false);
    hide DecodeFields;
    ScalarDecodes(fs, prior, VarintBytes(tag * 8 + w) + t, false);
    ScalarDecodes(fs, m, s, false);
  }

  /** A record that is there gives its member the number, whatever it held. */
  lemma PartRead(kinds: seq<Kind>, m: seq<Slot>, i: nat, n: U32, s: seq<Byte>)
    requires Kart(kinds, 1) && i < |kinds| && Fits(kinds[i], n) && Scalar(Fields(kinds, 1))
    requires TypedMsg(Fields(kinds, 1), m)
    ensures |m| == |kinds| && i + 1 < 16 && TypedMsg(Fields(kinds, 1), m[i := One(Num(n))])
    ensures DecodeMsg(Fields(kinds, 1), m, Part(true, kinds[i], i + 1, n) + s, false) ==
              DecodeMsg(Fields(kinds, 1), m[i := One(Num(n))], s, false)
  {
    hide Fields, Scalar, TypedMsg, DecodeMsg, TakeField, Payload, VarintBytes, Part, FieldsOk, KartKind, WireTypeOf,
         Fits;
    var k := kinds[i];
    PartTaken(kinds, m, i, n, s);
    PartIs(k, i + 1, n, s);
    OneTurn(Fields(kinds, 1), m, m[i := One(Num(n))], i + 1, WireTypeOf(k), Payload(k, n) + s, s);
  }

  /** The same of a record that may be missing for a zero, over a member that is zero. */
  lemma PartReads(kinds: seq<Kind>, m: seq<Slot>, i: nat, n: U32, zeros: bool, s: seq<Byte>)
    requires Kart(kinds, 1) && i < |kinds| && Fits(kinds[i], n) && Scalar(Fields(kinds, 1))
    requires TypedMsg(Fields(kinds, 1), m) && i < |m| && m[i] == One(Num(0))
    ensures TypedMsg(Fields(kinds, 1), m[i := One(Num(n))])
    ensures DecodeMsg(Fields(kinds, 1), m, Part(zeros, kinds[i], i + 1, n) + s, false) ==
              DecodeMsg(Fields(kinds, 1), m[i := One(Num(n))], s, false)
  {
    hide DecodeMsg, Scalar, Fields, TypedMsg, KartKind;
    PartRead(kinds, m, i, n, s);
    if n == 0 && !zeros {
      assert m[i := One(Num(0))] == m && [] + s == s;
    }
  }

  // ----- Whole messages

  /** The members of a struct with these numbers. */
  function Slots(n: seq<U32>): (m: seq<Slot>)
    ensures |m| == |n| && forall i :: 0 <= i < |m| ==> m[i] == One(Num(n[i]))
  {
    if n == [] then [] else [One(Num(n[0]))] + Slots(n[1..])
  }

  /** The zeroed struct that decoding starts from. */
  lemma Zeroed(kinds: seq<Kind>)
    requires Kart(kinds, 1)
    ensures Scalar(Fields(kinds, 1)) && TypedMsg(Fields(kinds, 1), DefaultMsg(Fields(kinds, 1)))
    ensures |DefaultMsg(Fields(kinds, 1))| == |kinds|
    ensures forall i :: 0 <= i < |kinds| ==> DefaultMsg(Fields(kinds, 1))[i] == One(Num(0))
  {
    var fs := Fields(kinds, 1);
    KartFieldsOk(kinds, 1);
    DefaultTyped(fs);
    forall i | 0 <= i < |kinds|
      ensures DefaultMsg(fs)[i] == One(Num(0))
    {
      DefaultAt(fs, i);
      assert KartKind(kinds[i]);
    }
  }

  /** At the end of the octets the struct stays as it is. */
  lemma AtEnd(kinds: seq<Kind>, m: seq<Slot>)
    requires Kart(kinds, 1) && Scalar(Fields(kinds, 1)) && TypedMsg(Fields(kinds, 1), m)
    ensures DecodeMsg(Fields(kinds, 1), m, [], false) == Ok(m, [])
  {
    ScalarDecodes(Fields(kinds, 1), m, [], false);
  }

  predicate AllFit(kinds: seq<Kind>, n: seq<U32>) {
    |n| == |kinds| && forall i :: 0 <= i < |kinds| ==> Fits(kinds[i], n[i])
  }

  /** The records of the members, in the order of their tags. */
  function Parts(zeros: bool, kinds: seq<Kind>, first: nat, n: seq<U32>): seq<Byte>
    requires Kart(kinds, first) && |n| == |kinds|
  {
    if kinds == [] then []
    else Part(zeros, kinds[0], first, n[0]) + Parts(zeros, kinds[1..], first + 1, n[1..])
  }

  /** What the encoder emits for a kart message. */
  lemma {:induction false} Encodes(kinds: seq<Kind>, first: nat, n: seq<U32>)
    requires Kart(kinds, first) && AllFit(kinds, n)
    ensures FieldsOk(Fields(kinds, first)) && TypedMsg(Fields(kinds, first), Slots(n))
    ensures EncodeMsg(Fields(kinds, first), Slots(n)) == Some(Parts(false, kinds, first, n))
    decreases kinds
  {
    KartFieldsOk(kinds, first);
    if kinds == [] {
    } else {
      Encodes(kinds[1..], first + 1, n[1..]);
      MemberOctets(kinds[0], first, n[0]);
      var fs, m := Fields(kinds, first), Slots(n);
      assert fs[1..] == Fields(kinds[1..], first + 1) && m[1..] == Slots(n[1..]);
      hide Part, EncodeField, Scalar, TypedSlot, Fields, FieldOk;
    }
  }

  lemma PartsFrom(zeros: bool, kinds: seq<Kind>, n: seq<U32>, i: nat)
    requires Kart(kinds, 1) && |n| == |kinds| && i < |kinds|
    ensures Kart(kinds[i..], i + 1) && Kart(kinds[i + 1..], i + 2)
    ensures Parts(zeros, kinds[i..], i + 1, n[i..]) ==
              Part(zeros, kinds[i], i + 1, n[i]) + Parts(zeros, kinds[i + 1..], i + 2, n[i + 1..])
  {
    hide Part;
    assert kinds[i..][1..] == kinds[i + 1..] && n[i..][1..] == n[i + 1..];
  }

  /** With the first i members read and the others zero, the records of the others complete the struct. */
  lemma {:induction false} DecodesFrom(kinds: seq<Kind>, m: seq<Slot>, n: seq<U32>, i: nat, zeros: bool)
    requires Kart(kinds, 1) && AllFit(kinds, n) && i <= |kinds| && Scalar(Fields(kinds, 1))
    requires TypedMsg(Fields(kinds, 1), m) && |m| == |n| && (forall j :: 0 <= j < i ==> m[j] == One(Num(n[j])))
    requires forall j :: i <= j < |m| ==> m[j] == One(Num(0))
    ensures Kart(kinds[i..], i + 1)
    ensures DecodeMsg(Fields(kinds, 1), m, Parts(zeros, kinds[i..], i + 1, n[i..]), false) == Ok(Slots(n), [])
    decreases |kinds| - i
  {
    hide Part, DecodeMsg, ScalarField, TypedMsg, Fields, Fits;
    if i == |kinds| {
      AtEnd(kinds, m);
      assert m == Slots(n);
    } else {
      assert Fits(kinds[i], n[i]);
      PartsFrom(zeros, kinds, n, i);
      PartReads(kinds, m, i, n[i], zeros, Parts(zeros, kinds[i + 1..], i + 2, n[i + 1..]));
      DecodesFrom(kinds, m[i := One(Num(n[i]))], n, i + 1, zeros);
    }
  }

  /** A kart message is exactly these octets, and is read from them with or without records that carry zero. */
  lemma MessageOctets(kinds: seq<Kind>, n: seq<U32>, zeros: bool)
    requires Kart(kinds, 1) && AllFit(kinds, n)
    ensures FieldsOk(Fields(kinds, 1)) && TypedMsg(Fields(kinds, 1), Slots(n))
    ensures TypedMsg(Fields(kinds, 1), DefaultMsg(Fields(kinds, 1)))
    ensures EncodeMsg(Fields(kinds, 1), Slots(n)) == Some(Parts(false, kinds, 1, n))
    ensures DecodeMsg(Fields(kinds, 1), DefaultMsg(Fields(kinds, 1)), Parts(zeros, kinds, 1, n), false) ==
              Ok(Slots(n), [])
  {
    hide Parts, DecodeMsg, EncodeMsg, Fields, DefaultMsg, TypedMsg, Fits;
    Encodes(kinds, 1, n);
    Zeroed(kinds);
    DecodesFrom(kinds, DefaultMsg(Fields(kinds, 1)), n, 0, zeros);
    assert kinds[0..] == kinds && n[0..] == n;
  }

  // ----- The ten messages

  /** A struct with these numbers is encoded as the octets sent, and is what the octets read decode to. */
  predicate HasOctets(kinds: seq<Kind>, n: seq<U32>, sent: seq<Byte>, read: seq<Byte>) {
    && Kart(kinds, 1)
    && FieldsOk(Fields(kinds, 1))
    && TypedMsg(Fields(kinds, 1), Slots(n))
    && TypedMsg(Fields(kinds, 1), DefaultMsg(Fields(kinds, 1)))
    && EncodeMsg(Fields(kinds, 1), Slots(n)) == Some(sent)
    && DecodeMsg(Fields(kinds, 1), DefaultMsg(Fields(kinds, 1)), read, false) == Ok(Slots(n), [])
  }

  lemma PartsHave(kinds: seq<Kind>, n: seq<U32>, zeros: bool)
    requires Kart(kinds, 1) && AllFit(kinds, n)
    ensures HasOctets(kinds, n, Parts(false, kinds, 1, n), Parts(zeros, kinds, 1, n))
  {
    MessageOctets(kinds, n, zeros);
  }

  lemma OnePart(zeros: bool, k: Kind, n: U32)
    requires Kart([k], 1)
    ensures Parts(zeros, [k], 1, [n]) == Part(zeros, k, 1, n)
  {
    hide Part;
    assert [k][1..] == [] && [n][1..] == [];
    assert Part(zeros, k, 1, n) + [] == Part(zeros, k, 1, n);
  }

  lemma LastPart(zeros: bool, kinds: seq<Kind>, n: seq<U32>)
    requires Kart(kinds, 1) && |n| == |kinds| > 0
    ensures Parts(zeros, kinds[0..], 1, n[0..]) == Parts(zeros, kinds, 1, n)
    ensures var i := |kinds| - 1;
            Kart(kinds[i..], i + 1) && Parts(zeros, kinds[i..], i + 1, n[i..]) == Part(zeros, kinds[i], i + 1, n[i])
  {
    var i := |kinds| - 1;
    PartsFrom(zeros, kinds, n, i);
    hide Part;
    assert kinds[0..] == kinds && n[0..] == n;
    assert kinds[i + 1..] == [] && n[i + 1..] == [];
    assert Part(zeros, kinds[i], i + 1, n[i]) + [] == Part(zeros, kinds[i], i + 1, n[i]);
  }

  lemma TwoParts(zeros: bool, kinds: seq<Kind>, n: seq<U32>)
    requires Kart(kinds, 1) && |n| == |kinds| == 2
    ensures Parts(zeros, kinds, 1, n) == Part(zeros, kinds[0], 1, n[0]) + Part(zeros, kinds[1], 2, n[1])
  {
    hide Part, Parts;
    LastPart(zeros, kinds, n);
    PartsFrom(zeros, kinds, n, 0);
  }

  /** ActSpeed, ActBraking, TargThrottle, TargBraking and TargSteering: one float. */
  lemma OneFloatOctets(n: U32, zeros: bool)
    ensures HasOctets(ACT_SPEED, [n], Float(false, 0x0D, n), Float(zeros, 0x0D, n))
    ensures HasOctets(ACT_BRAKING, [n], Float(false, 0x0D, n), Float(zeros, 0x0D, n))
    ensures HasOctets(TARG_THROTTLE, [n], Float(false, 0x0D, n), Float(zeros, 0x0D, n))
    ensures HasOctets(TARG_BRAKING, [n], Float(false, 0x0D, n), Float(zeros, 0x0D, n))
    ensures HasOctets(TARG_STEERING, [n], Float(false, 0x0D, n), Float(zeros, 0x0D, n))
  {
    OnePart(false, Fixed32, n);
    OnePart(zeros, Fixed32, n);
    hide HasOctets, Parts, Float;
    PartsHave([Fixed32], [n], zeros);
  }

  lemma HeartbeatOctets(uptime: U32, zeros: bool)
    ensures HasOctets(HEARTBEAT, [uptime], Number(false, 0x08, uptime), Number(zeros, 0x08, uptime))
  {
    OnePart(false, UVarint, uptime);
    OnePart(zeros, UVarint, uptime);
    hide HasOctets, Parts, Number;
    PartsHave([UVarint], [uptime], zeros);
  }

  lemma ActAccelerationOctets(lateral: U32, longitudinal: U32, zeros: bool)
    ensures HasOctets(ACT_ACCELERATION, [lateral, longitudinal],
                Float(false, 0x0D, lateral) + Float(false, 0x15, longitudinal),
                Float(zeros, 0x0D, lateral) + Float(zeros, 0x15, longitudinal))
  {
    var kinds, n := ACT_ACCELERATION, [lateral, longitudinal];
    TwoParts(false, kinds, n);
    TwoParts(zeros, kinds, n);
    hide HasOctets, Parts, Float;
    PartsHave(kinds, n, zeros);
  }

  lemma ActSteeringOctets(angle: U32, rawEncoder: U32, zeros: bool)
    ensures HasOctets(ACT_STEERING, [angle, rawEncoder],
                Float(false, 0x0D, angle) + Number(false, 0x10, rawEncoder),
                Float(zeros, 0x0D, angle) + Number(zeros, 0x10, rawEncoder))
  {
    var kinds, n := ACT_STEERING, [angle, rawEncoder];
    TwoParts(false, kinds, n);
    TwoParts(zeros, kinds, n);
    hide HasOctets, Parts, Float, Number;
    PartsHave(kinds, n, zeros);
  }

  function OrinComplete(zeros: bool, throttle: U32, braking: U32, steering: U32, mission: U32, state: U32,
                        shutdown: bool): seq<Byte> {
    Float(zeros, 0x0D, throttle) + (Float(zeros, 0x15, braking) + (Float(zeros, 0x1D, steering) +
        (Number(zeros, 0x20, mission) + (Number(zeros, 0x28, state) + Switch(zeros, 0x30, shutdown)))))
  }

  lemma OrinParts(zeros: bool, throttle: U32, braking: U32, steering: U32, mission: U32, state: U32, shutdown: bool)
    ensures Kart(ORIN_COMPLETE, 1)
    ensures Parts(zeros, ORIN_COMPLETE, 1, [throttle, braking, steering, mission, state, if shutdown then 1 else 0]) ==
              OrinComplete(zeros, throttle, braking, steering, mission, state, shutdown)
  {
    var kinds, n := ORIN_COMPLETE, [throttle, braking, steering, mission, state, if shutdown then 1 else 0];
    hide Parts, Float, Number, Switch;
    LastPart(zeros, kinds, n);
    SwitchPart(zeros, 6, shutdown);
    PartsFrom(zeros, kinds, n, 4);
    PartsFrom(zeros, kinds, n, 3);
    PartsFrom(zeros, kinds, n, 2);
    PartsFrom(zeros, kinds, n, 1);
    PartsFrom(zeros, kinds, n, 0);
  }

  lemma OrinCompleteOctets(throttle: U32, braking: U32, steering: U32, mission: U32, state: U32, shutdown: bool,
                           zeros: bool)
    ensures HasOctets(ORIN_COMPLETE, [throttle, braking, steering, mission, state, if shutdown then 1 else 0],
                OrinComplete(false, throttle, braking, steering, mission, state, shutdown),
                OrinComplete(zeros, throttle, braking, steering, mission, state, shutdown))
  {
    OrinParts(false, throttle, braking, steering, mission, state, shutdown);
    OrinParts(zeros, throttle, braking, steering, mission, state, shutdown);
    hide HasOctets, Parts, OrinComplete;
    PartsHave(ORIN_COMPLETE, [throttle, braking, steering, mission, state, if shutdown then 1 else 0], zeros);
  }

  /** The members of a health report: three flags and seven counts. */
  datatype Health = Health(magnetOk: bool, i2cOk: bool, heapOk: bool, agc: U32, heapKb: U32, i2cErrors: U32,
                           stackComms: U32, stackControl: U32, stackHeartbeat: U32, stackHealth: U32)

  function HealthStatus(zeros: bool, h: Health): seq<Byte> {
    Switch(zeros, 0x08, h.magnetOk) + (Switch(zeros, 0x10, h.i2cOk) + (Switch(zeros, 0x18, h.heapOk) +
        (Number(zeros, 0x20, h.agc) + (Number(zeros, 0x28, h.heapKb) + (Number(zeros, 0x30, h.i2cErrors) +
            (Number(zeros, 0x38, h.stackComms) + (Number(zeros, 0x40, h.stackControl) +
                (Number(zeros, 0x48, h.stackHeartbeat) + Number(zeros, 0x50, h.stackHealth)))))))))
  }

  function HealthNumbers(h: Health): (n: seq<U32>) {
    [if h.magnetOk then 1 else 0, if h.i2cOk then 1 else 0, if h.heapOk then 1 else 0, h.agc, h.heapKb, h.i2cErrors,
     h.stackComms, h.stackControl, h.stackHeartbeat, h.stackHealth]
  }

  lemma HealthTail(zeros: bool, kinds: seq<Kind>, n: seq<U32>)
    requires Kart(kinds, 1) && |n| == |kinds| == 10 && forall i :: 5 <= i < 10 ==> !kinds[i].Fixed32?
    ensures Kart(kinds[5..], 6)
    ensures Parts(zeros, kinds[5..], 6, n[5..]) ==
              Number(zeros, 0x30, n[5]) + (Number(zeros, 0x38, n[6]) + (Number(zeros, 0x40, n[7]) +
                  (Number(zeros, 0x48, n[8]) + Number(zeros, 0x50, n[9]))))
  {
    hide Parts, Number, KartKind;
    LastPart(zeros, kinds, n);
    PartsFrom(zeros, kinds, n, 8);
    PartsFrom(zeros, kinds, n, 7);
    PartsFrom(zeros, kinds, n, 6);
    PartsFrom(zeros, kinds, n, 5);
  }

  lemma HealthHead(zeros: bool, kinds: seq<Kind>, n: seq<U32>)
    requires Kart(kinds, 1) && |n| == |kinds| == 10 && forall i :: 0 <= i < 5 ==> !kinds[i].Fixed32?
    ensures Kart(kinds[5..], 6)
    ensures Parts(zeros, kinds, 1, n) ==
              Number(zeros, 0x08, n[0]) + (Number(zeros, 0x10, n[1]) + (Number(zeros, 0x18, n[2]) +
                  (Number(zeros, 0x20, n[3]) + (Number(zeros, 0x28, n[4]) + Parts(zeros, kinds[5..], 6, n[5..])))))
  {
    hide Parts, Number, KartKind;
    LastPart(zeros, kinds, n);
    PartsFrom(zeros, kinds, n, 4);
    PartsFrom(zeros, kinds, n, 3);
    PartsFrom(zeros, kinds, n, 2);
    PartsFrom(zeros, kinds, n, 1);
    PartsFrom(zeros, kinds, n, 0);
  }

  lemma HealthParts(zeros: bool, h: Health)
    ensures Kart(HEALTH_STATUS, 1) && AllFit(HEALTH_STATUS, HealthNumbers(h))
    ensures Parts(zeros, HEALTH_STATUS, 1, HealthNumbers(h)) == HealthStatus(zeros, h)
  {
    hide Parts, Number, Switch;
    var n := HealthNumbers(h);
    HealthTail(zeros, HEALTH_STATUS, n);
    HealthHead(zeros, HEALTH_STATUS, n);
    SwitchNumber(zeros, 0x08, h.magnetOk);
    SwitchNumber(zeros, 0x10, h.i2cOk);
    SwitchNumber(zeros, 0x18, h.heapOk);
  }

  lemma HealthStatusOctets(h: Health, zeros: bool)
    ensures HasOctets(HEALTH_STATUS, HealthNumbers(h), HealthStatus(false, h), HealthStatus(zeros, h))
  {
    hide HasOctets, Parts, HealthStatus, HealthNumbers;
    HealthParts(false, h);
    HealthParts(zeros, h);
    PartsHave(HEALTH_STATUS, HealthNumbers(h), zeros);
  }
}
