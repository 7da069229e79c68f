/**
 * Outgoing Bluetooth reports: the ring buffer, and the device that sends a report now or queues it and
 * tries again later. The ring refines a bounded first-in first-out queue.
 */
module ReportRing {
  import opened Bytes

  /** What the buffer's operations return. */
  datatype Status = Done | BufferFull | BufferEmpty | TooBig

  /** A queued report: the 16-bit pattern of its channel and the octets. */
  datatype Packet = Packet(cid: nat, data: seq<Byte>)

  /** The occupied slots in order: from head up to tail, around the end if need be. */
  function Queue(slots: seq<Packet>, head: nat, tail: nat): (q: seq<Packet>)
    requires head < |slots| && tail < |slots|
    ensures |q| == (if head <= tail then tail - head else |slots| - head + tail) < |slots|
  {
    if head <= tail then slots[head..tail] else slots[head..] + slots[..tail]
  }

  function Next(i: nat, size: nat): nat { if i + 1 == size then 0 else i + 1 }

  lemma QueuePop(slots: seq<Packet>, head: nat, tail: nat)
    requires head < |slots| && tail < |slots| && head != tail
    ensures Queue(slots, head, tail) == [slots[head]] + Queue(slots, Next(head, |slots|), tail)
  {
    if head < tail {
      assert slots[head..tail] == [slots[head]] + slots[head + 1..tail];
    } else if head + 1 == |slots| {
      assert slots[head..] == [slots[head]] && slots[0..tail] == slots[..tail];
    } else {
      assert slots[head..] == [slots[head]] + slots[head + 1..];
      assert [slots[head]] + slots[head + 1..] + slots[..tail] == [slots[head]] + (slots[head + 1..] + slots[..tail]);
    }
  }

  lemma QueuePush(slots: seq<Packet>, head: nat, tail: nat, p: Packet)
    requires head < |slots| && tail < |slots| && Next(tail, |slots|) != head
    ensures Queue(slots[tail := p], head, Next(tail, |slots|)) == Queue(slots, head, tail) + [p]
  {
    var after := slots[tail := p];
    if tail + 1 == |slots| {
      assert after[head..] == slots[head..tail] + [p];
    } else {
      assert after[..tail + 1] == slots[..tail] + [p];
    }
  }

  class Ring {
    const slots: array<Packet>
    /** Size of a slot's data; a report must be shorter. */
    const dataSize: nat
    var headIdx: nat
    var tailIdx: nat

    ghost predicate Valid()
      reads this
    {
      slots.Length >= 2 && dataSize >= 1 && headIdx < slots.Length && tailIdx < slots.Length
    }

    ghost function Capacity(): int { slots.Length - 1 }

    ghost function Contents(): (q: seq<Packet>)
      requires Valid()
      reads this, slots
      ensures |q| <= Capacity()
    {
      Queue(slots[..], headIdx, tailIdx)
    }

    constructor (size: nat, dataSize: nat)
      requires size >= 2 && dataSize >= 1
      ensures Valid() && fresh(slots) && Contents() == [] && slots.Length == size && this.dataSize == dataSize
    {
      slots := new Packet[size](_ => Packet(0, []));
      this.dataSize := dataSize;
      headIdx, tailIdx := 0, 0;
    }

    /** uni_circular_buffer_is_empty */
    method IsEmpty() returns (empty: bool)
      requires Valid()
      ensures empty <==> Contents() == []
    {
      empty := headIdx == tailIdx;
    }

    /** uni_circular_buffer_is_full: one slot always stays free. */
    method IsFull() returns (full: bool)
      requires Valid()
      ensures full <==> |Contents()| == Capacity()
    {
      full := tailIdx + 1 == headIdx || (headIdx == 0 && tailIdx == slots.Length - 1);
    }

    /** uni_circular_buffer_put */
    method Put(cid: nat, data: seq<Byte>) returns (err: Status)
      requires Valid()
      modifies this, slots
      ensures Valid() && headIdx == old(headIdx)
      ensures err == if |old(Contents())| == Capacity() then BufferFull
                     else if |data| >= dataSize then TooBig else Done
      ensures Contents() == if err == Done then old(Contents()) + [Packet(cid, data)] else old(Contents())
      ensures forall i :: 0 <= i < slots.Length && i != old(tailIdx) ==> slots[i] == old(slots[i])
    {
      var full := IsFull();
      if full {
        return BufferFull;
      }
      if |data| >= dataSize {
        return TooBig;
      }
      QueuePush(slots[..], headIdx, tailIdx, Packet(cid, data));
      hide Queue;
      assert slots[..][tailIdx := Packet(cid, data)] == slots[..tailIdx] + [Packet(cid, data)] + slots[tailIdx + 1..];
      slots[tailIdx] := Packet(cid, data);
      tailIdx := tailIdx + 1;
      if tailIdx == slots.Length {
        tailIdx := 0;
      }
      return Done;
    }

    /** uni_circular_buffer_get: the slot stays as it is and is not the one the next put writes. */
    method Get() returns (err: Status, cid: nat, slot: nat)
      requires Valid()
      modifies `headIdx
      ensures Valid()
      ensures err == if old(Contents()) == [] then BufferEmpty else Done
      ensures err == BufferEmpty ==> Contents() == []
      ensures err == Done ==> slot < slots.Length && slot != tailIdx
      ensures err == Done ==> old(Contents()) == [Packet(cid, slots[slot].data)] + Contents()
    {
      var empty := IsEmpty();
      if empty {
        return BufferEmpty, 0, 0;
      }
      QueuePop(slots[..], headIdx, tailIdx);
      hide Queue;
      slot := headIdx;
      cid := slots[headIdx].cid;
      headIdx := headIdx + 1;
      if headIdx == slots.Length {
        headIdx := 0;
      }
      err := Done;
    }

    /** uni_circular_buffer_reset */
    method Reset()
      requires Valid()
      modifies this
      ensures Valid() && Contents() == []
    {
      headIdx, tailIdx := 0, 0;
    }
  }

  // ----- The device

  /** Reports waiting, handed to the link, and given up because the queue had no room for them. */
  datatype State = State(queue: seq<Packet>, sent: seq<Packet>, lost: seq<Packet>)

  /** Size limits of the queue. */
  datatype Bounds = Bounds(capacity: nat, dataSize: nat)

  predicate Acceptable(p: Packet) { p.cid != 0 && p.data != [] }

  function Submit(s: State, b: Bounds, p: Packet, linkFree: bool): State {
    if p.cid == 0 || p.data == [] then s
    else if linkFree then s.(sent := s.sent + [p])
    else if |s.queue| >= b.capacity || |p.data| >= b.dataSize then s.(lost := s.lost + [p])
    else s.(queue := s.queue + [p])
  }

  /** One attempt to send from the queue. */
  function Retry(s: State, b: Bounds, linkFree: bool): State {
    if s.queue == [] then s else Submit(s.(queue := s.queue[1..]), b, s.queue[0], linkFree)
  }

  class Device {
    const outgoing: Ring
    ghost var sent: seq<Packet>
    ghost var lost: seq<Packet>

    ghost predicate Valid()
      reads this, outgoing
    {
      outgoing.Valid()
    }

    ghost function Abs(): State
      requires Valid()
      reads this, outgoing, outgoing.slots
    {
      State(outgoing.Contents(), sent, lost)
    }

    ghost function Limits(): Bounds
      requires Valid()
      reads this, outgoing
    {
      Bounds(outgoing.Capacity(), outgoing.dataSize)
    }

    constructor (ring: Ring)
      requires ring.Valid()
      ensures Valid() && outgoing == ring && Abs() == State(ring.Contents(), [], [])
    {
      outgoing, sent, lost := ring, [], [];
    }

    /**
     * uni_hid_device_send_report; linkFree tells whether l2cap_send takes the report. Sent or not, a
     * valid report asks for a can-send-now event on its channel.
     */
    method SendReport(cid: nat, report: seq<Byte>, linkFree: bool) returns (requested: bool)
      requires Valid()
      modifies this, outgoing, outgoing.slots
      ensures Valid() && Abs() == Submit(old(Abs()), Limits(), Packet(cid, report), linkFree)
      ensures requested == Acceptable(Packet(cid, report))
    {
      if cid == 0 {
        return false;
      }
      if |report| == 0 {
        return false;
      }
      if linkFree {
        sent := sent + [Packet(cid, report)];
      } else {
        var err := outgoing.Put(cid, report);
        if err != Done {
          lost := lost + [Packet(cid, report)];
        }
      }
      requested := true;
    }

    /** uni_hid_device_send_queued_reports: the report is read from its slot when it is sent or put back. */
    method SendQueuedReports(linkFree: bool) returns (requested: bool)
      requires Valid()
      modifies this, outgoing, outgoing.slots
      ensures Valid() && Abs() == Retry(old(Abs()), Limits(), linkFree)
      ensures requested == (old(Abs()).queue != [] && Acceptable(old(Abs()).queue[0]))
    {
      var empty := outgoing.IsEmpty();
      if empty {
        return false;
      }
      var err, cid, slot := outgoing.Get();
      if err != Done {
        return false;
      }
      requested := SendReport(cid, outgoing.slots[slot].data, linkFree);
    }
  }

  // ----- Runs

  /** What the rest of the firmware does to the device. */
  datatype Event = Report(p: Packet, linkFree: bool) | CanSendNow(linkFree: bool)

  function Step(s: State, b: Bounds, e: Event): State {
    match e
    case Report(p, linkFree) => Submit(s, b, p, linkFree)
    case CanSendNow(linkFree) => Retry(s, b, linkFree)
  }

  function RunAll(s: State, b: Bounds, es: seq<Event>): State
    decreases es
  {
    if es == [] then s else RunAll(Step(s, b, es[0]), b, es[1..])
  }

  predicate Queueable(p: Packet, b: Bounds) { p.cid != 0 && 0 < |p.data| < b.dataSize }

  /** The queue is within bounds and holds only reports that could be queued. */
  predicate Sound(s: State, b: Bounds) {
    && |s.queue| <= b.capacity
    && forall i :: 0 <= i < |s.queue| ==> Queueable(s.queue[i], b)
  }

  /** The valid reports handed in during a run. */
  function Submitted(es: seq<Event>): multiset<Packet> {
    if es == [] then multiset{}
    else (if es[0].Report? && Acceptable(es[0].p) then multiset{es[0].p} else multiset{}) + Submitted(es[1..])
  }

  function Everything(s: State): multiset<Packet> { multiset(s.queue) + multiset(s.sent) + multiset(s.lost) }

  /** An attempt on a sound, non-empty queue sends its head or moves it to the end; it is never refused there. */
  lemma RetrySendsOrRotates(s: State, b: Bounds, linkFree: bool)
    requires Sound(s, b) && s.queue != []
    ensures Retry(s, b, linkFree) ==
              if linkFree then s.(queue := s.queue[1..], sent := s.sent + [s.queue[0]])
              else s.(queue := s.queue[1..] + [s.queue[0]])
    ensures Sound(Retry(s, b, linkFree), b)
  {
    assert Queueable(s.queue[0], b);
    forall i | 0 <= i < |s.queue[1..]|
      ensures Queueable(s.queue[1..][i], b)
    {
      assert Queueable(s.queue[i + 1], b);
    }
  }

  /** A valid report that comes while the link is busy and the queue is full, or that no slot can hold. */
  predicate Refused(s: State, b: Bounds, e: Event) {
    e.Report? && Acceptable(e.p) && !e.linkFree && (|s.queue| == b.capacity || |e.p.data| >= b.dataSize)
  }

  lemma LostIfRefused(s: State, b: Bounds, e: Event)
    requires Sound(s, b)
    ensures Step(s, b, e).lost == if Refused(s, b, e) then s.lost + [e.p] else s.lost
  {
    if e.CanSendNow? && s.queue != [] {
      RetrySendsOrRotates(s, b, e.linkFree);
      hide Retry;
    }
  }

  lemma RetryConserves(s: State, b: Bounds, linkFree: bool)
    requires Sound(s, b)
    ensures Sound(Retry(s, b, linkFree), b) && Retry(s, b, linkFree).lost == s.lost
    ensures Everything(Retry(s, b, linkFree)) == Everything(s)
  {
    if s.queue != [] {
      RetrySendsOrRotates(s, b, linkFree);
      var p, rest := s.queue[0], s.queue[1..];
      hide Retry, Sound;
      assert s.queue == [p] + rest;
      assert multiset(s.queue) == multiset{p} + multiset(rest);
      assert multiset(rest + [p]) == multiset(rest) + multiset{p};
      assert multiset(s.sent + [p]) == multiset(s.sent) + multiset{p};
    }
  }

  lemma SubmitSound(s: State, b: Bounds, p: Packet, linkFree: bool)
    requires Sound(s, b)
    ensures Sound(Submit(s, b, p, linkFree), b)
  {
  }

  lemma SubmitConserves(s: State, b: Bounds, p: Packet, linkFree: bool)
    ensures Everything(Submit(s, b, p, linkFree)) == Everything(s) + (if Acceptable(p) then multiset{p} else multiset{})
  {
    assert multiset(s.queue + [p]) == multiset(s.queue) + multiset{p};
    assert multiset(s.sent + [p]) == multiset(s.sent) + multiset{p};
    assert multiset(s.lost + [p]) == multiset(s.lost) + multiset{p};
  }

  lemma StepConserves(s: State, b: Bounds, e: Event)
    requires Sound(s, b)
    ensures Sound(Step(s, b, e), b)
    ensures Everything(Step(s, b, e)) == Everything(s) + Submitted([e])
    ensures e.CanSendNow? ==> Step(s, b, e).lost == s.lost
    ensures Step(s, b, e).lost == if Refused(s, b, e) then s.lost + [e.p] else s.lost
  {
    assert [e][1..] == [];
    LostIfRefused(s, b, e);
    hide Sound, Everything, Retry, Submit, Refused;
    if e.Report? {
      SubmitSound(s, b, e.p, e.linkFree);
      SubmitConserves(s, b, e.p, e.linkFree);
    } else {
      RetryConserves(s, b, e.linkFree);
    }
  }

  /** The reports refused over a run, in order. */
  function AllRefused(s: State, b: Bounds, es: seq<Event>): seq<Packet>
    decreases es
  {
    if es == [] then []
    else (if Refused(s, b, es[0]) then [es[0].p] else []) + AllRefused(Step(s, b, es[0]), b, es[1..])
  }

  /**
   * Over every run the queue stays within capacity and every valid report handed in is exactly once
   * waiting, sent or lost.
   */
  lemma {:induction false} RunConserves(s: State, b: Bounds, es: seq<Event>)
    requires Sound(s, b)
    ensures Sound(RunAll(s, b, es), b)
    ensures Everything(RunAll(s, b, es)) == Everything(s) + Submitted(es)
    decreases es
  {
    if es == [] {
    } else {
      StepConserves(s, b, es[0]);
      assert [es[0]][1..] == [];
      RunConserves(Step(s, b, es[0]), b, es[1..]);
    }
  }

  /** The reports lost over a run are exactly those refused when they were handed in. */
  lemma {:induction false} RunLosesRefused(s: State, b: Bounds, es: seq<Event>)
    requires Sound(s, b)
    ensures RunAll(s, b, es).lost == s.lost + AllRefused(s, b, es)
    decreases es
  {
    hide Sound, Step, Refused;
    if es == [] {
      assert s.lost + [] == s.lost;
    } else {
      var t := Step(s, b, es[0]);
      StepConserves(s, b, es[0]);
      RunLosesRefused(t, b, es[1..]);
      var now, later := if Refused(s, b, es[0]) then [es[0].p] else [], AllRefused(t, b, es[1..]);
      assert s.lost + (now + later) == s.lost + now + later;
      assert s.lost + [] == s.lost;
    }
  }

  function Attempts(n: nat, linkFree: bool): (es: seq<Event>)
    ensures |es| == n
  {
    if n == 0 then [] else [CanSendNow(linkFree)] + Attempts(n - 1, linkFree)
  }

  /** While the link is free the queue goes out in the order it was filled. */
  lemma {:induction false} DrainsInOrder(s: State, b: Bounds, n: nat)
    requires Sound(s, b) && n <= |s.queue|
    ensures RunAll(s, b, Attempts(n, true)) == s.(queue := s.queue[n..], sent := s.sent + s.queue[..n])
    decreases n
  {
    if n == 0 {
    } else {
      RetrySendsOrRotates(s, b, true);
      var t := Retry(s, b, true);
      assert Attempts(n, true)[1..] == Attempts(n - 1, true);
      DrainsInOrder(t, b, n - 1);
      assert t.queue[n - 1..] == s.queue[n..];
      assert s.sent + [s.queue[0]] + s.queue[1..][..n - 1] == s.sent + s.queue[..n];
    }
  }

  lemma RunSound(s: State, b: Bounds, es: seq<Event>)
    requires Sound(s, b)
    ensures Sound(RunAll(s, b, es), b)
  {
    RunConserves(s, b, es);
  }

  lemma {:induction false} AttemptsSnoc(s: State, b: Bounds, n: nat, linkFree: bool)
    ensures RunAll(s, b, Attempts(n + 1, linkFree)) == Retry(RunAll(s, b, Attempts(n, linkFree)), b, linkFree)
    decreases n
  {
    hide Retry;
    assert Attempts(n + 1, linkFree)[1..] == Attempts(n, linkFree);
    if n == 0 {
    } else {
      assert Attempts(n, linkFree)[1..] == Attempts(n - 1, linkFree);
      AttemptsSnoc(Retry(s, b, linkFree), b, n - 1, linkFree);
    }
  }

  /** While it is busy, attempts rotate the queue; as many as it holds bring it back. */
  lemma {:induction false} BusyRotates(s: State, b: Bounds, n: nat)
    requires Sound(s, b) && n <= |s.queue|
    ensures RunAll(s, b, Attempts(n, false)) == s.(queue := s.queue[n..] + s.queue[..n])
    decreases |s.queue|, n
  {
    if n > 0 {
      BusyRotates(s, b, n - 1);
      var t := s.(queue := s.queue[n - 1..] + s.queue[..n - 1]);
      AttemptsSnoc(s, b, n - 1, false);
      RunSound(s, b, Attempts(n - 1, false));
      RetrySendsOrRotates(t, b, false);
      assert t.queue[1..] + [t.queue[0]] == s.queue[n..] + s.queue[..n];
    } else {
      assert s.queue[0..] + s.queue[..0] == s.queue;
    }
  }

  // ----- Order

  /** The report that an event adds to those accepted: sent at once or queued, not lost. */
  function Taken(s: State, b: Bounds, e: Event): seq<Packet> {
    if e.Report? && Acceptable(e.p) && (e.linkFree || (|s.queue| < b.capacity &&
        |e.p.data| < b.dataSize)) then [e.p] else []
  }

  /** The reports in the order they go out if the queue is drained. */
  function Order(s: State): seq<Packet> { s.sent + s.queue }

  predicate AllAre(q: seq<Packet>, p: Packet) { forall i :: 0 <= i < |q| ==> q[i] == p }

  /**
   * A report sent at once must find no other waiting, and a failed attempt no two that differ: else it
   * overtakes, or the head falls back behind the rest.
   */
  predicate KeepsOrder(s: State, e: Event) {
    match e
    case Report(p, linkFree) => Acceptable(p) && linkFree ==> AllAre(s.queue, p)
    case CanSendNow(linkFree) => !linkFree && s.queue != [] ==> AllAre(s.queue, s.queue[0])
  }

  /** Moving an element from one end of a sequence to the other leaves it as it was only if all are equal to it. */
  lemma {:induction false} Commutes(q: seq<Packet>, p: Packet)
    ensures [p] + q == q + [p] <==> AllAre(q, p)
  {
    if q == [] {
      assert [p] + q == q + [p];
    } else {
      var rest := q[1..];
      assert q == [q[0]] + rest;
      Commutes(rest, p);
      if [p] + q == q + [p] {
        assert ([p] + q)[0] == (q + [p])[0];
        assert ([p] + q)[1..] == q && (q + [p])[1..] == rest + [p];
        assert [p] + rest == rest + [p];
        assert AllAre(q, p);
      }
      if AllAre(q, p) {
        assert forall i :: 0 <= i < |rest| ==> rest[i] == q[i + 1];
        assert [p] + q == [p] + ([p] + rest) == [p] + (rest + [p]) == q + [p];
      }
    }
  }

  lemma Insertion(a: seq<Packet>, b: seq<Packet>, c: seq<Packet>)
    ensures a + b == a + c <==> b == c
  {
    if a + b == a + c {
      assert b == (a + b)[|a|..] == (a + c)[|a|..] == c;
    }
  }

  /** One event keeps the reports in the order they were accepted exactly under that condition. */
  lemma StepKeepsOrder(s: State, b: Bounds, e: Event)
    requires Sound(s, b)
    ensures Order(Step(s, b, e)) == Order(s) + Taken(s, b, e) <==> KeepsOrder(s, e)
  {
    match e
    case Report(p, linkFree) =>
      Commutes(s.queue, p);
      Insertion(s.sent, [p] + s.queue, s.queue + [p]);
      assert s.sent + [p] + s.queue == s.sent + ([p] + s.queue);
      assert s.sent + s.queue + [p] == s.sent + (s.queue + [p]);
      assert Order(s) + [] == Order(s);
    case CanSendNow(linkFree) =>
      assert Order(s) + [] == Order(s);
      if s.queue != [] {
        RetrySendsOrRotates(s, b, linkFree);
        var p, rest := s.queue[0], s.queue[1..];
        assert s.queue == [p] + rest;
        Commutes(rest, p);
        Insertion(s.sent, [p] + rest, rest + [p]);
        assert s.sent + [p] + rest == s.sent + ([p] + rest);
        assert AllAre(s.queue, p) <==> AllAre(rest, p) by {
          assert forall i :: 0 <= i < |rest| ==> rest[i] == s.queue[i + 1];
        }
      }
  }

  /** At every moment of the run, sent and waiting reports together are the history of those accepted, in order. */
  predicate FollowsHistory(history: seq<Packet>, s: State, b: Bounds, es: seq<Event>)
    decreases es
  {
    && Order(s) == history
    && (es == [] || FollowsHistory(history + Taken(s, b, es[0]), Step(s, b, es[0]), b, es[1..]))
  }

  predicate AllKeepOrder(s: State, b: Bounds, es: seq<Event>)
    decreases es
  {
    es == [] || (KeepsOrder(s, es[0]) && AllKeepOrder(Step(s, b, es[0]), b, es[1..]))
  }

  /** Over a whole run order is kept at every moment exactly when every event meets that condition. */
  lemma {:induction false} RunKeepsOrder(history: seq<Packet>, s: State, b: Bounds, es: seq<Event>)
    requires Sound(s, b) && Order(s) == history
    ensures FollowsHistory(history, s, b, es) <==> AllKeepOrder(s, b, es)
    decreases es
  {
    hide Step, Taken, KeepsOrder, Order, Sound;
    if es == [] {
    } else {
      var t, next := Step(s, b, es[0]), history + Taken(s, b, es[0]);
      StepKeepsOrder(s, b, es[0]);
      StepConserves(s, b, es[0]);
      if Order(t) == next {
        RunKeepsOrder(next, t, b, es[1..]);
      } else {
        assert es != [] && !FollowsHistory(next, t, b, es[1..]);
      }
    }
  }

  /** A report sent directly overtakes one that waits, with no attempt in between. */
  lemma DirectSendOvertakes(b: Bounds, p: Packet, q: Packet)
    requires b.capacity >= 1 && Queueable(p, b) && Acceptable(q) && p != q
    ensures RunAll(State([], [], []), b, [Report(p, false), Report(q, true)]) == State([p], [q], [])
    ensures !AllKeepOrder(State([], [], []), b, [Report(p, false), Report(q, true)])
  {
    var s, es := State([], [], []), [Report(p, false), Report(q, true)];
    assert es[1..] == [Report(q, true)] && [Report(q, true)][1..] == [];
    assert Step(s, b, es[0]) == State([p], [], []);
    var t := State([p], [], []);
    assert t.queue[0] == p;
    assert !KeepsOrder(t, Report(q, true));
    assert Step(t, b, Report(q, true)) == State([p], [q], []);
    assert RunAll(t, b, es[1..]) == RunAll(State([p], [q], []), b, []);
  }

  /** Order is not kept across a failed attempt: of two queued reports the second can go out first. */
  lemma RetryBreaksOrder(b: Bounds, p: Packet, q: Packet)
    requires b.capacity >= 2 && Queueable(p, b) && Queueable(q, b)
    ensures RunAll(State([p, q], [], []), b, [CanSendNow(false), CanSendNow(true)]) == State([p], [q], [])
    ensures p != q ==> !AllKeepOrder(State([p, q], [], []), b, [CanSendNow(false), CanSendNow(true)])
  {
    var s := State([p, q], [], []);
    var es := [CanSendNow(false), CanSendNow(true)];
    assert s.queue[1] == q && s.queue[0] == p;
    RetrySendsOrRotates(s, b, false);
    assert [p, q][1..] + [p] == [q, p];
    var t := s.(queue := [q, p]);
    RetrySendsOrRotates(t, b, true);
    assert [q, p][1..] == [p];
    hide Retry;
    assert es[1..] == [CanSendNow(true)] && [CanSendNow(true)][1..] == [];
    assert RunAll(t, b, [CanSendNow(true)]) == RunAll(Retry(t, b, true), b, []);
  }
}
