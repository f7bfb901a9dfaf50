/**
 The sending half of a tox-sequenced session: the running `inFlight` byte count
 over all outgoing messages, kept through sends that may fail, ACKs, NACKs,
 retransmission timeouts, probes, completion and message timeouts.

 Timers, windows and the transport are parameters: `accepted` is the sender's
 answer, `expired` an RTO test, `now` a clock reading.
 */
module SendSession {
  import opened Wrappers
  import opened Protocol
  import opened Sequences
  import opened Bits
  import opened Outgoing
  import opened Contents

  const CONNECTION_TIMEOUT: nat := 300
  const MESSAGE_TIMEOUT: nat := 30

  ghost predicate AllOk(msgs: seq<Message>) {
    forall k | 0 <= k < |msgs| :: msgs[k].layout.Ok()
  }

  /** Bytes of every fragment with `lastSent` set, over all messages. */
  ghost function Total(msgs: seq<Message>): nat
    requires AllOk(msgs)
  {
    if msgs == [] then 0 else Total(msgs[..|msgs| - 1]) + msgs[|msgs| - 1].InFlightBytes()
  }

  lemma {:induction false} TotalUpdate(msgs: seq<Message>, k: nat, m: Message)
    requires k < |msgs| && AllOk(msgs) && m.layout.Ok()
    ensures AllOk(msgs[k := m])
    ensures Total(msgs) >= msgs[k].InFlightBytes()
    ensures Total(msgs[k := m]) == Total(msgs) - msgs[k].InFlightBytes() + m.InFlightBytes()
  {
    var n := |msgs| - 1;
    if k < n {
      TotalUpdate(msgs[..n], k, m);
      assert msgs[k := m][..n] == msgs[..n][k := m];
    } else {
      assert msgs[k := m][..n] == msgs[..n];
    }
  }

  lemma {:induction false} TotalRemove(msgs: seq<Message>, k: nat)
    requires k < |msgs| && AllOk(msgs)
    ensures AllOk(msgs[..k] + msgs[k + 1..])
    ensures Total(msgs[..k] + msgs[k + 1..]) == Total(msgs) - msgs[k].InFlightBytes()
  {
    var rest, n := msgs[..k] + msgs[k + 1..], |msgs| - 1;
    if k == n {
      assert rest == msgs[..n];
    } else {
      TotalRemove(msgs[..n], k);
      WithoutInit(msgs, k);
      assert rest == Without(msgs, k);
    }
  }

  ghost predicate AllValid(msgs: seq<Message>) {
    forall k | 0 <= k < |msgs| :: msgs[k].Valid() && msgs[k].Accounted()
  }

  ghost predicate AllHonest(msgs: seq<Message>) {
    forall k | 0 <= k < |msgs| :: msgs[k].Honest()
  }

  lemma RemoveKeeps(ids: seq<nat>, msgs: seq<Message>, k: nat)
    requires k < |ids| == |msgs|
    ensures Distinct(ids) ==> Distinct(ids[..k] + ids[k + 1..])
    ensures AllValid(msgs) ==> AllValid(msgs[..k] + msgs[k + 1..])
    ensures AllHonest(msgs) ==> AllHonest(msgs[..k] + msgs[k + 1..])
  {
  }

  lemma TotalPush(msgs: seq<Message>, m: Message)
    requires AllOk(msgs) && m.layout.Ok()
    ensures Total(msgs + [m]) == Total(msgs) + m.InFlightBytes()
  {
    assert (msgs + [m])[..|msgs|] == msgs;
  }

  /** The id `j` places after `start`, in 32-bit arithmetic. */
  function IdAt(start: nat, j: nat): nat { (start + j) % ID_SPACE }

  ghost predicate FirstFree(ids: seq<nat>, start: nat, id: nat) {
    exists j: nat | j < MAX_CONCURRENT_OUTGOING ::
      id == IdAt(start, j) && forall i | 0 <= i < j :: IdAt(start, i) in ids
  }

  /** The first id at or after `start` that no queued message uses; fewer than 32 are in use. */
  method FreeId(ids: seq<nat>, start: nat) returns (id: nat)
    requires |ids| < MAX_CONCURRENT_OUTGOING && start < ID_SPACE
    ensures id !in ids && id < ID_SPACE && FirstFree(ids, start, id)
  {
    id := start;
    for k := 0 to MAX_CONCURRENT_OUTGOING
      invariant id == IdAt(start, k)
      invariant forall j | 0 <= j < k :: IdAt(start, j) in ids
    {
      if id !in ids { return; }
      id := (id + 1) % ID_SPACE;
    }
    Pigeonhole(ids, start, MAX_CONCURRENT_OUTGOING);
  }

  lemma {:induction false} Pigeonhole(ids: seq<nat>, start: nat, n: nat)
    requires n <= ID_SPACE && forall j | 0 <= j < n :: IdAt(start, j) in ids
    ensures n <= |ids|
    decreases n
  {
    if n > 0 {
      var x := IdAt(start, n - 1);
      var i :| 0 <= i < |ids| && ids[i] == x;
      var rest := ids[..i] + ids[i + 1..];
      forall j | 0 <= j < n - 1 ensures IdAt(start, j) in rest {
        var y := IdAt(start, j);
        var p :| 0 <= p < |ids| && ids[p] == y;
        assert p != i;
        assert y == rest[if p < i then p else p - 1];
      }
      Pigeonhole(rest, start, n - 1);
    }
  }

  class Session {
    var ids: seq<nat>
    var msgs: seq<Message>
    var nextMessageId: nat
    var inFlight: nat
    var retransmitCount: nat
    /** Bytes still counted for fragments of messages that are gone. */
    ghost var leaked: nat

    ghost predicate Valid()
      reads this
    {
      && |ids| == |msgs| <= MAX_CONCURRENT_OUTGOING && nextMessageId < ID_SPACE
      && Distinct(ids) && AllValid(msgs)
      && inFlight == Total(msgs) + leaked
    }

    /** Every answer so far was about fragments that had been sent. */
    ghost predicate Honest()
      reads this
    {
      leaked == 0 && AllHonest(msgs)
    }

    constructor (firstId: nat)
      requires firstId < ID_SPACE
      ensures Valid() && Honest() && msgs == [] && inFlight == 0
    {
      ids, msgs, nextMessageId, inFlight, retransmitCount, leaked := [], [], firstId, 0, 0, 0;
    }

    method Find(id: nat) returns (r: Option<nat>)
      ensures r.Some? ==> r.value < |ids| && ids[r.value] == id
      ensures r.None? ==> id !in ids
    {
      for k := 0 to |ids|
        invariant id !in ids[..k]
      {
        if ids[k] == id { return Some(k); }
      }
      return None;
    }

    method Push(id: nat, m: Message)
      requires Valid() && id !in ids && |ids| < MAX_CONCURRENT_OUTGOING
      requires m.Valid() && m.Accounted() && m.Honest() && m.InFlightBytes() == 0
      modifies `ids, `msgs
      ensures Valid() && ids == old(ids) + [id] && msgs == old(msgs) + [m]
      ensures old(Honest()) ==> Honest()
    {
      TotalPush(msgs, m);
      ids, msgs := ids + [id], msgs + [m];
    }

    /** The next free id, which is then used up. */
    method TakeId() returns (id: nat)
      requires Valid() && |ids| < MAX_CONCURRENT_OUTGOING
      modifies `nextMessageId
      ensures Valid() && id !in ids && id < ID_SPACE
      ensures FirstFree(ids, old(nextMessageId), id) && nextMessageId == (id + 1) % ID_SPACE
    {
      id := FreeId(ids, nextMessageId);
      nextMessageId := (id + 1) % ID_SPACE;
    }

    /** Queues a message of `size` serialized bytes under the next free id, which an oversize one uses up too. */
    method SendMessage(size: nat, now: Instant) returns (id: Option<nat>, ghost taken: nat)
      requires Valid()
      modifies this
      ensures Valid() && inFlight == old(inFlight) && leaked == old(leaked)
      ensures id.None? <==> |old(ids)| >= MAX_CONCURRENT_OUTGOING || size > MAX_MESSAGE_SIZE
      ensures id.None? ==> ids == old(ids) && msgs == old(msgs)
      ensures |old(ids)| >= MAX_CONCURRENT_OUTGOING ==> nextMessageId == old(nextMessageId)
      ensures |old(ids)| < MAX_CONCURRENT_OUTGOING ==>
                FirstFree(old(ids), old(nextMessageId), taken) && nextMessageId == (taken + 1) % ID_SPACE
      ensures id.Some? ==> id.value == taken && id.value !in old(ids) && ids == old(ids) + [id.value]
      ensures id.Some? ==> && |msgs| == |old(msgs)| + 1 && msgs[..|old(msgs)|] == old(msgs)
                           && msgs[|old(msgs)|].layout == Layout(size, PAYLOAD_MTU, CeilDiv(size, PAYLOAD_MTU))
                           && msgs[|old(msgs)|].acked == {} && msgs[|old(msgs)|].InFlight() == {}
                           && msgs[|old(msgs)|].nextFragment == 0 && msgs[|old(msgs)|].retransmitSet == {}
                           && msgs[|old(msgs)|].lastAckAt == now && msgs[|old(msgs)|].timeout == MESSAGE_TIMEOUT
      ensures old(Honest()) ==> Honest()
    {
      id, taken := None, 0;
      if |msgs| >= MAX_CONCURRENT_OUTGOING { return; }
      var candidate := TakeId();
      taken := candidate;
      if size > MAX_MESSAGE_SIZE { return; }
      SizeFits(size);
      var created := NewMessage(size, PAYLOAD_MTU, now);
      Push(candidate, created.value);
      id := Some(candidate);
    }

    /** Builds the packet, asks the transport, and applies the effects only when it was taken. */
    method TrySendFragment(k: nat, idx: nat, now: Instant, accepted: bool) returns (sent: bool)
      requires Valid() && k < |msgs| && idx < msgs[k].layout.count
      modifies `msgs, `inFlight, `retransmitCount
      ensures Valid() && sent == accepted
      ensures !sent ==> msgs == old(msgs) && inFlight == old(inFlight)
      ensures sent ==>
        && |msgs| == |old(msgs)| && msgs == old(msgs)[k := msgs[k]]
        && msgs[k] == old(msgs)[k].(states := msgs[k].states,
                                    inFlightQueue := old(msgs)[k].inFlightQueue + [Flying(idx, now)])
        && msgs[k].InFlight() == old(msgs)[k].InFlight() + {idx}
        && msgs[k].Sent() == old(msgs)[k].Sent() + {idx}
        && |msgs[k].states| == msgs[k].layout.count && Stamped(old(msgs)[k], msgs[k], idx, now, 0)
    {
      if !accepted { return false; }
      var msg := msgs[k];
      var len := msg.layout.Len(idx);
      var m, isRetransmission, wasInFlight := msg.MarkFragmentSent(idx, now);
      TotalUpdate(msgs, k, m);
      if wasInFlight {
        assert msg.InFlight() + {idx} == msg.InFlight();
        msg.layout.BytesRemove(msg.InFlight(), idx);
        inFlight := inFlight - len;
        retransmitCount := retransmitCount + 1;
      } else {
        msg.layout.BytesAdd(msg.InFlight(), idx);
      }
      msgs := msgs[k := m];
      inFlight := inFlight + len;
      return true;
    }

    /** Writes back a message whose flight did not change. */
    method Replace(k: nat, m: Message)
      requires Valid() && k < |msgs| && m.Valid() && m.Accounted()
      requires m.layout == msgs[k].layout && m.InFlight() == msgs[k].InFlight()
      modifies `msgs
      ensures Valid() && msgs == old(msgs)[k := m]
    {
      TotalUpdate(msgs, k, m);
      msgs := msgs[k := m];
    }

    /**
     The next fragment of one message: a queued retransmission first, then an
     expired head of the in-flight queue, then new data.
     */
    method SendNextFragment(k: nat, now: Instant, expired: bool, accepted: bool) returns (sent: bool)
      requires Valid() && k < |msgs|
      modifies `msgs, `inFlight, `retransmitCount
      ensures Valid() && (sent <==> accepted && NextOf(old(msgs)[k], expired).Some?)
      ensures !sent ==> msgs == old(msgs) && inFlight == old(inFlight)
      ensures sent ==> && |msgs| == |old(msgs)| && msgs == old(msgs)[k := msgs[k]]
                       && WentOut(old(msgs)[k], msgs[k], NextOf(old(msgs)[k], expired).value)
                       && SentNext(old(msgs)[k], msgs[k], expired, now)
      ensures old(Honest()) ==> Honest()
    {
      var msg := msgs[k];
      if msg.retransmitQueue != [] {
        sent := Retransmit(k, now, accepted);
      } else if msg.inFlightQueue != [] && expired {
        sent := ResendExpired(k, now, accepted);
      } else if msg.nextFragment < msg.layout.count {
        sent := SendNew(k, now, accepted);
      } else {
        sent := false;
      }
    }

    /**
     A run of accepted calls without a timeout: what is planned goes out from the front, each
     fragment once and in order, and what is left is the rest of the plan.
     */
    method SendPlanned(k: nat, times: seq<Instant>)
      requires Valid() && k < |msgs| && |times| <= |Plan(msgs[k])|
      modifies `msgs, `inFlight, `retransmitCount
      ensures Valid()
      ensures SentSoFar(old(msgs), msgs, k, Plan(old(msgs)[k])[|times|..], Flights(Plan(old(msgs)[k]), times))
      decreases |times|
    {
      if times != [] {
        SendFront(k, times[0]);
        ghost var mid := msgs;
        SendPlanned(k, times[1..]);
        SoFarJoin(old(msgs), mid, msgs, k, Plan(old(msgs)[k]), times);
      }
    }

    /** One such call. */
    method SendFront(k: nat, now: Instant)
      requires Valid() && k < |msgs| && Plan(msgs[k]) != []
      modifies `msgs, `inFlight, `retransmitCount
      ensures Valid() && |msgs| == |old(msgs)| && msgs == old(msgs)[k := msgs[k]]
      ensures Plan(msgs[k]) == Plan(old(msgs)[k])[1..] && msgs[k].acked == old(msgs)[k].acked
      ensures msgs[k].inFlightQueue == old(msgs)[k].inFlightQueue + [Flying(Plan(old(msgs)[k])[0], now)]
    {
      PlanIsNext(msgs[k]);
      var sent := SendNextFragment(k, now, false, true);
      PlanStep(old(msgs)[k], msgs[k], false, now);
    }

    /** Sends the head of the retransmit queue; it is popped only on success. */
    method Retransmit(k: nat, now: Instant, accepted: bool) returns (sent: bool)
      requires Valid() && k < |msgs| && msgs[k].retransmitQueue != []
      modifies `msgs, `inFlight, `retransmitCount
      ensures Valid() && sent == accepted
      ensures !sent ==> msgs == old(msgs) && inFlight == old(inFlight)
      ensures sent ==> && |msgs| == |old(msgs)| && msgs == old(msgs)[k := msgs[k]]
                       && WentOut(old(msgs)[k], msgs[k], old(msgs)[k].retransmitQueue[0])
                       && forall expired :: SentNext(old(msgs)[k], msgs[k], expired, now)
      ensures old(Honest()) ==> Honest()
    {
      var msg := msgs[k];
      var idx := msg.retransmitQueue[0];
      ListsPopFront(msg.retransmitQueue, msg.retransmitSet);
      sent := TrySendFragment(k, idx, now, accepted);
      if sent {
        var m := msgs[k].(retransmitQueue := msg.retransmitQueue[1..], retransmitSet := msg.retransmitSet - {idx});
        PopRetransmit(msgs[k]);
        HonestAfterResend(msg, m, idx);
        Replace(k, m);
      }
    }

    /** Sends the oldest entry in flight again; its old entry is popped only on success. */
    method ResendExpired(k: nat, now: Instant, accepted: bool) returns (sent: bool)
      requires Valid() && k < |msgs| && msgs[k].inFlightQueue != []
      modifies `msgs, `inFlight, `retransmitCount
      ensures Valid() && sent == accepted
      ensures !sent ==> msgs == old(msgs) && inFlight == old(inFlight)
      ensures sent ==> && |msgs| == |old(msgs)| && msgs == old(msgs)[k := msgs[k]]
                       && msgs[k].InFlight() == old(msgs)[k].InFlight()
                       && WentOut(old(msgs)[k], msgs[k], old(msgs)[k].inFlightQueue[0].idx)
                       && Stamped(old(msgs)[k], msgs[k], old(msgs)[k].inFlightQueue[0].idx, now, 1)
                       && msgs[k] == old(msgs)[k].(states := msgs[k].states, inFlightQueue :=
                            old(msgs)[k].inFlightQueue[1..] + [Flying(old(msgs)[k].inFlightQueue[0].idx, now)])
      ensures old(Honest()) ==> Honest()
    {
      var msg := msgs[k];
      var idx := msg.inFlightQueue[0].idx;
      IndicesMember(msg.inFlightQueue, 0);
      StatesMember(msg.states, idx);
      sent := TrySendFragment(k, idx, now, accepted);
      if sent {
        var m := msgs[k];
        var st := m.states[idx].(rtoBackoff := m.states[idx].rtoBackoff + 1);
        StatesMember(m.states, idx);
        StatesUpdate(m.states, m.layout, idx, st);
        RequeueKeepsIndices(msg.inFlightQueue, now);
        assert m.InFlight() + {idx} == m.InFlight() == msg.InFlight() && m.Sent() + {idx} == m.Sent() == msg.Sent();
        m := m.(states := m.states[idx := st], inFlightQueue := m.inFlightQueue[1..]);
        assert m.Valid();
        HonestAfterResend(msg, m, idx);
        Replace(k, m);
      }
    }

    /** First transmission of the next fragment; the mark advances only on success. */
    method SendNew(k: nat, now: Instant, accepted: bool) returns (sent: bool)
      requires Valid() && k < |msgs| && msgs[k].nextFragment < msgs[k].layout.count
      modifies `msgs, `inFlight, `retransmitCount
      ensures Valid() && sent == accepted
      ensures !sent ==> msgs == old(msgs) && inFlight == old(inFlight)
      ensures sent ==> && |msgs| == |old(msgs)| && msgs == old(msgs)[k := msgs[k]]
                       && Stamped(old(msgs)[k], msgs[k], old(msgs)[k].nextFragment, now, 0)
                       && msgs[k] == old(msgs)[k].(states := msgs[k].states,
                            nextFragment := old(msgs)[k].nextFragment + 1,
                            inFlightQueue := old(msgs)[k].inFlightQueue + [Flying(old(msgs)[k].nextFragment, now)])
                       && WentOut(old(msgs)[k], msgs[k], old(msgs)[k].nextFragment)
      ensures old(Honest()) ==> Honest()
    {
      sent := TrySendFragment(k, msgs[k].nextFragment, now, accepted);
      if sent {
        var m := msgs[k].(nextFragment := msgs[k].nextFragment + 1);
        NewKeeps(old(msgs)[k], msgs[k], m);
        Replace(k, m);
      }
    }

    /**
     The zero-window probe: the first message with anything to send, without
     popping either queue, so a fragment may then be queued and in flight at once.
     */
    method ProbeZeroWindow(now: Instant, accepted: bool) returns (sent: bool, slot: Option<nat>)
      requires Valid()
      modifies `msgs, `inFlight, `retransmitCount
      ensures Valid() && (sent <==> accepted && slot.Some?)
      ensures !sent ==> msgs == old(msgs) && inFlight == old(inFlight)
      ensures slot == FirstProbe(old(msgs), 0)
      ensures sent ==> && slot.value < |msgs| == |old(msgs)| && msgs == old(msgs)[slot.value := msgs[slot.value]]
                       && Probed(old(msgs)[slot.value], msgs[slot.value], now)
      ensures old(Honest()) ==> Honest()
    {
      for k := 0 to |msgs|
        invariant msgs == old(msgs) && inFlight == old(inFlight) && Valid()
        invariant FirstProbe(msgs, 0) == FirstProbe(msgs, k)
      {
        if ProbeOf(msgs[k]).Some? {
          sent := ProbeMessage(k, now, accepted);
          return sent, Some(k);
        }
      }
      return false, None;
    }

    /** The probe of one message: a queued retransmission, else new data, else the oldest in flight. */
    method ProbeMessage(k: nat, now: Instant, accepted: bool) returns (sent: bool)
      requires Valid() && k < |msgs| && ProbeOf(msgs[k]).Some?
      modifies `msgs, `inFlight, `retransmitCount
      ensures Valid() && sent == accepted
      ensures !sent ==> msgs == old(msgs) && inFlight == old(inFlight)
      ensures sent ==> |msgs| == |old(msgs)| && msgs == old(msgs)[k := msgs[k]] && Probed(old(msgs)[k], msgs[k], now)
      ensures old(Honest()) ==> Honest()
    {
      var msg := msgs[k];
      if msg.retransmitQueue != [] {
        ListsPopFront(msg.retransmitQueue, msg.retransmitSet);
        sent := TrySendFragment(k, msg.retransmitQueue[0], now, accepted);
        if sent { HonestAfterResend(msg, msgs[k], msg.retransmitQueue[0]); }
      } else if msg.nextFragment < msg.layout.count {
        sent := SendNew(k, now, accepted);
      } else {
        sent := Resend(k, 0, now, accepted);
      }
    }

    /** The tail-loss probe: the newest entry in flight of message `k`, again without popping it. */
    method TailLossProbe(k: nat, now: Instant, accepted: bool) returns (sent: bool)
      requires Valid() && k < |msgs| && msgs[k].inFlightQueue != []
      modifies `msgs, `inFlight, `retransmitCount
      ensures Valid() && sent == accepted
      ensures inFlight == old(inFlight) && (!sent ==> msgs == old(msgs))
      ensures sent ==> && |msgs| == |old(msgs)| && msgs == old(msgs)[k := msgs[k]]
                       && WentOut(old(msgs)[k], msgs[k],
                                  old(msgs)[k].inFlightQueue[|old(msgs)[k].inFlightQueue| - 1].idx)
                       && msgs[k] == old(msgs)[k].(states := msgs[k].states, inFlightQueue := old(msgs)[k].inFlightQueue
                            + [Flying(old(msgs)[k].inFlightQueue[|old(msgs)[k].inFlightQueue| - 1].idx, now)])
      ensures old(Honest()) ==> Honest()
    {
      sent := Resend(k, |msgs[k].inFlightQueue| - 1, now, accepted);
    }

    method Resend(k: nat, at: nat, now: Instant, accepted: bool) returns (sent: bool)
      requires Valid() && k < |msgs| && at < |msgs[k].inFlightQueue|
      modifies `msgs, `inFlight, `retransmitCount
      ensures Valid() && sent == accepted && inFlight == old(inFlight)
      ensures !sent ==> msgs == old(msgs)
      ensures sent ==> && |msgs| == |old(msgs)| && msgs == old(msgs)[k := msgs[k]]
                       && WentOut(old(msgs)[k], msgs[k], old(msgs)[k].inFlightQueue[at].idx)
                       && Stamped(old(msgs)[k], msgs[k], old(msgs)[k].inFlightQueue[at].idx, now, 0)
                       && msgs[k] == old(msgs)[k].(states := msgs[k].states, inFlightQueue :=
                            old(msgs)[k].inFlightQueue + [Flying(old(msgs)[k].inFlightQueue[at].idx, now)])
      ensures old(Honest()) ==> Honest()
    {
      var msg := msgs[k];
      var idx := msg.inFlightQueue[at].idx;
      IndicesMember(msg.inFlightQueue, at);
      StatesMember(msg.states, idx);
      sent := TrySendFragment(k, idx, now, accepted);
      assert msg.InFlight() + {idx} == msg.InFlight() && msg.Sent() + {idx} == msg.Sent();
      if sent {
        TotalUpdate(old(msgs), k, msgs[k]);
        HonestAfterResend(msg, msgs[k], idx);
      }
    }

    /** Takes a message out of the session; whatever it still had in flight stays counted. */
    method Remove(k: nat)
      requires Valid() && k < |msgs|
      modifies `ids, `msgs, `leaked
      ensures Valid()
      ensures ids == old(ids)[..k] + old(ids)[k + 1..] && msgs == old(msgs)[..k] + old(msgs)[k + 1..]
      ensures leaked == old(leaked) + old(msgs)[k].InFlightBytes()
      ensures old(Honest()) && leaked == 0 ==> Honest()
    {
      TotalRemove(msgs, k);
      RemoveKeeps(ids, msgs, k);
      leaked := leaked + msgs[k].InFlightBytes();
      ids, msgs := ids[..k] + ids[k + 1..], msgs[..k] + msgs[k + 1..];
    }

    /** Writes back a message and takes the bytes that left its flight off the counter. */
    method Apply(k: nat, m: Message, completed: nat)
      requires Valid() && k < |msgs| && m.Valid() && m.Accounted()
      requires completed + m.InFlightBytes() == msgs[k].InFlightBytes()
      modifies `msgs, `inFlight
      ensures Valid() && msgs == old(msgs)[k := m] && inFlight == old(inFlight) - completed
    {
      TotalUpdate(msgs, k, m);
      inFlight := inFlight - completed;
      msgs := msgs[k := m];
    }

    /**
     An ACK.  The counter drops by exactly the bytes that left the flight; when the
     ACK completes the message, what stays counted is exactly the fragments that had
     been sent although they were acked already.
     */
    method HandleAck(id: nat, base: nat, mask: Word, now: Instant)
      returns (slot: Option<nat>, complete: bool, completed: nat)
      requires Valid() && base < 65536
      modifies `ids, `msgs, `inFlight, `leaked
      ensures Valid()
      ensures slot.None? ==>
        id !in old(ids) && msgs == old(msgs) && ids == old(ids) && leaked == old(leaked) && completed == 0
      ensures slot.Some? ==> slot.value < |old(msgs)| == |old(ids)| && old(ids)[slot.value] == id
      ensures slot.Some? ==>
        var msg := old(msgs)[slot.value];
        var acked := msg.acked + AckCover(base, mask, msg.layout.count);
        && (complete <==> forall i: nat | i < msg.layout.count :: i in acked)
        && (complete ==> && ids == old(ids)[..slot.value] + old(ids)[slot.value + 1..]
                         && msgs == old(msgs)[..slot.value] + old(msgs)[slot.value + 1..])
        && leaked == old(leaked) + (if complete then msg.layout.Bytes(msg.InFlight() * msg.acked) else 0)
        && (!complete ==>
            && ids == old(ids) && |msgs| == |old(msgs)| && msgs == old(msgs)[slot.value := msgs[slot.value]]
            && msg.AckedBy(msgs[slot.value], base, mask, now)
            && msg.LostIn(msgs[slot.value], base) <= msg.InFlight()
            && msgs[slot.value].InFlight() == msg.InFlight() - (acked - msg.acked) - msg.LostIn(msgs[slot.value], base))
      ensures inFlight == old(inFlight) - completed
      ensures old(Honest()) && (slot.Some? ==> var msg := old(msgs)[slot.value];
                                               Within(AckCover(base, mask, msg.layout.count), msg.nextFragment))
              ==> Honest()
    {
      complete, completed := false, 0;
      slot := Find(id);
      if slot.None? { return; }
      complete, completed := AckSlot(slot.value, base, mask, now);
    }

    /** An ACK of the message in slot `k`. */
    method AckSlot(k: nat, base: nat, mask: Word, now: Instant) returns (complete: bool, completed: nat)
      requires Valid() && k < |msgs| && base < 65536
      modifies `ids, `msgs, `inFlight, `leaked
      ensures Valid() && inFlight == old(inFlight) - completed
      ensures var msg := old(msgs)[k];
              var acked := msg.acked + AckCover(base, mask, msg.layout.count);
              && (complete <==> forall i: nat | i < msg.layout.count :: i in acked)
              && (complete ==>
                  && ids == old(ids)[..k] + old(ids)[k + 1..] && msgs == old(msgs)[..k] + old(msgs)[k + 1..])
              && leaked == old(leaked) + (if complete then msg.layout.Bytes(msg.InFlight() * msg.acked) else 0)
              && (!complete ==> && ids == old(ids) && |msgs| == |old(msgs)| && msgs == old(msgs)[k := msgs[k]]
                                && msg.AckedBy(msgs[k], base, mask, now)
                                && msg.LostIn(msgs[k], base) <= msg.InFlight()
                                && msgs[k].InFlight()
                                   == msg.InFlight() - (acked - msg.acked) - msg.LostIn(msgs[k], base))
      ensures old(Honest()) && Within(AckCover(base, mask, old(msgs)[k].layout.count), old(msgs)[k].nextFragment) ==>
        Honest()
    {
      var m;
      m, completed := AckMessage(msgs[k], base, mask, now);
      complete := m.AllAcked();
      Apply(k, m, completed);
      if complete {
        UpdateThenRemove(old(msgs), k, m);
        Remove(k);
      }
    }

    /** A NACK: the counter drops by exactly the bytes pulled out of the flight. */
    method HandleNack(id: nat, missing: seq<nat>) returns (slot: Option<nat>, triggered: bool)
      requires Valid()
      modifies `msgs, `inFlight
      ensures Valid()
      ensures slot.None? ==> id !in ids && msgs == old(msgs) && inFlight == old(inFlight) && !triggered
      ensures slot.Some? ==> slot.value < |ids| && ids[slot.value] == id && |msgs| == |old(msgs)|
      ensures slot.Some? ==>
        var msg := old(msgs)[slot.value];
        var wanted := Wanted(missing, msg.layout.count, msg.acked);
        && msgs == old(msgs)[slot.value := msgs[slot.value]]
        && msgs[slot.value].InFlight() == msg.InFlight() - wanted
        && msgs[slot.value].retransmitSet == msg.retransmitSet + wanted
        && msgs[slot.value].retransmitQueue == Requeued(msg.retransmitQueue, missing, msg.layout.count, msg.acked)
        && msgs[slot.value].inFlightQueue == Retain(msg.inFlightQueue, wanted)
        && (triggered <==> wanted != {})
      ensures old(Honest()) && (slot.Some? ==> var msg := old(msgs)[slot.value];
                                               Within(Wanted(missing, msg.layout.count, msg.acked), msg.nextFragment))
              ==> Honest()
    {
      triggered := false;
      slot := Find(id);
      if slot.None? { return; }
      var k := slot.value;
      var m, completed;
      m, completed, triggered := msgs[k].OnNack(missing);
      HonestAfterNack(msgs[k], m, Wanted(missing, msgs[k].layout.count, msgs[k].acked));
      Apply(k, m, completed);
    }

    /** Drops a timed-out message and takes every fragment it had in flight off the counter. */
    method Expire(k: nat)
      requires Valid() && k < |msgs|
      modifies `ids, `msgs, `inFlight
      ensures Valid() && inFlight == old(inFlight) - old(msgs)[k].InFlightBytes()
      ensures ids == old(ids)[..k] + old(ids)[k + 1..] && msgs == old(msgs)[..k] + old(msgs)[k + 1..]
      ensures old(Honest()) ==> Honest()
    {
      var bytes := msgs[k].FlightBytes();
      TotalRemove(msgs, k);
      RemoveKeeps(ids, msgs, k);
      inFlight := inFlight - bytes;
      ids, msgs := ids[..k] + ids[k + 1..], msgs[..k] + msgs[k + 1..];
    }

    /** Message timeouts: every byte of a dropped message comes off the counter. */
    method Cleanup(now: Instant)
      requires Valid()
      modifies `ids, `msgs, `inFlight
      ensures Valid()
      ensures Entries(ids, msgs) == KeepLive(old(Entries(ids, msgs)), now)
      ensures old(Honest()) ==> Honest()
    {
      var k := 0;
      ghost var done := 0;
      while k < |msgs|
        invariant Valid() && (old(Honest()) ==> Honest())
        invariant Swept(Entries(ids, msgs), k, old(Entries(ids, msgs)), done, now)
        decreases |msgs| - k
      {
        SweptStep(Entries(ids, msgs), k, old(Entries(ids, msgs)), done, now);
        if TimedOut(msgs[k], now) {
          EntriesWithout(ids, msgs, k);
          Expire(k);
        } else {
          k := k + 1;
        }
        done := done + 1;
      }
      SweptEnd(Entries(ids, msgs), k, old(Entries(ids, msgs)), done, now);
    }
  }

  lemma SizeFits(size: nat)
    requires size <= MAX_MESSAGE_SIZE
    ensures FragmentCount(size, PAYLOAD_MTU) == CeilDiv(size, PAYLOAD_MTU) <= 776 < MAX_FRAGMENTS_PER_MESSAGE
  {
  }

  /** The messages with their ids, in order. */
  function Entries(ids: seq<nat>, msgs: seq<Message>): seq<(nat, Message)>
    requires |ids| == |msgs|
  {
    seq(|ids|, i requires 0 <= i < |ids| => (ids[i], msgs[i]))
  }

  lemma EntriesWithout(ids: seq<nat>, msgs: seq<Message>, k: nat)
    requires k < |ids| == |msgs|
    ensures Entries(ids[..k] + ids[k + 1..], msgs[..k] + msgs[k + 1..])
            == Entries(ids, msgs)[..k] + Entries(ids, msgs)[k + 1..]
  {
  }

  /** `cur` is `all` with its first `done` messages already sieved down to `k`. */
  ghost predicate Swept(cur: seq<(nat, Message)>, k: nat, all: seq<(nat, Message)>, done: nat, now: Instant) {
    k <= |cur| && done <= |all| && cur[..k] == KeepLive(all[..done], now) && cur[k..] == all[done..]
  }

  lemma SweptEnd(cur: seq<(nat, Message)>, k: nat, all: seq<(nat, Message)>, done: nat, now: Instant)
    requires Swept(cur, k, all, done, now) && k >= |cur|
    ensures cur == KeepLive(all, now)
  {
    assert cur[..k] == cur && all[..done] == all;
  }

  lemma SweptStep(cur: seq<(nat, Message)>, k: nat, all: seq<(nat, Message)>, done: nat, now: Instant)
    requires Swept(cur, k, all, done, now) && k < |cur|
    ensures TimedOut(cur[k].1, now) ==> Swept(cur[..k] + cur[k + 1..], k, all, done + 1, now)
    ensures !TimedOut(cur[k].1, now) ==> Swept(cur, k + 1, all, done + 1, now)
  {
    assert cur[k] == cur[k..][0] == all[done..][0] == all[done];
    assert all[..done + 1][..done] == all[..done];
    assert cur[k + 1..] == cur[k..][1..] == all[done..][1..] == all[done + 1..];
    if TimedOut(cur[k].1, now) {
      var next := cur[..k] + cur[k + 1..];
      assert next[..k] == cur[..k] && next[k..] == cur[k + 1..];
    } else {
      assert cur[..k + 1] == cur[..k] + [cur[k]];
    }
  }

  /** The fragment is in flight now; nothing is acked or forgotten by sending it. */
  ghost predicate WentOut(before: Message, after: Message, idx: nat) {
    && after.InFlight() == before.InFlight() + {idx} && after.acked == before.acked && after.layout == before.layout
    && after.inFlightQueue != [] && after.inFlightQueue[|after.inFlightQueue| - 1].idx == idx
  }

  /** The fragment was sent at `now`, and its timeouts counted `timeouts` more; no other fragment changed. */
  ghost predicate Stamped(before: Message, after: Message, idx: nat, now: Instant, timeouts: nat) {
    && idx < |before.states| == |after.states| && after.states == before.states[idx := after.states[idx]]
    && after.states[idx].lastSent == Some(now)
    && after.states[idx].rtoBackoff == before.states[idx].rtoBackoff + timeouts
  }

  /** The head in flight is what goes out next. */
  predicate Resends(m: Message, expired: bool) { m.retransmitQueue == [] && m.inFlightQueue != [] && expired }

  /** A sent fragment leaves the queue it came from, or moves the send mark, and is last in flight. */
  ghost predicate SentNext(before: Message, after: Message, expired: bool, now: Instant) {
    && NextOf(before, expired).Some?
    && var idx, queued, resent := NextOf(before, expired).value, before.retransmitQueue != [], Resends(before, expired);
       && after == before.(
            retransmitQueue := if queued then before.retransmitQueue[1..] else [],
            retransmitSet := if queued then before.retransmitSet - {idx} else before.retransmitSet,
            inFlightQueue := before.inFlightQueue[if resent then 1 else 0..] + [Flying(idx, now)],
            nextFragment := before.nextFragment + if queued || resent then 0 else 1,
            states := after.states)
       && Stamped(before, after, idx, now, if resent then 1 else 0)
  }

  /** What `send_next_fragment_for_message` picks. */
  function NextOf(m: Message, expired: bool): Option<nat> {
    if m.retransmitQueue != [] then Some(m.retransmitQueue[0])
    else if m.inFlightQueue != [] && expired then Some(m.inFlightQueue[0].idx)
    else if m.nextFragment < m.layout.count then Some(m.nextFragment)
    else None
  }

  /** What is yet to go out, in order: the retransmit queue, then the fragments never sent. */
  function Plan(m: Message): seq<nat> {
    m.retransmitQueue + if m.nextFragment <= m.layout.count then Upwards(m.nextFragment, m.layout.count) else []
  }

  /** The first fragments of a plan with their send times. */
  function Flights(plan: seq<nat>, times: seq<Instant>): seq<Flying>
    requires |times| <= |plan|
  {
    seq(|times|, i requires 0 <= i < |times| => Flying(plan[i], times[i]))
  }

  lemma FlightsCons(plan: seq<nat>, times: seq<Instant>)
    requires 1 <= |times| <= |plan|
    ensures Flights(plan, times) == [Flying(plan[0], times[0])] + Flights(plan[1..], times[1..])
    ensures plan[1..][|times| - 1..] == plan[|times|..]
  {
  }

  /** Of message `k`, `flown` went out and `left` is yet to go; no other message changed. */
  ghost predicate SentSoFar(start: seq<Message>, msgs: seq<Message>, k: nat, left: seq<nat>, flown: seq<Flying>) {
    && k < |start| == |msgs| && msgs == start[k := msgs[k]]
    && Plan(msgs[k]) == left && msgs[k].acked == start[k].acked
    && msgs[k].inFlightQueue == start[k].inFlightQueue + flown
  }

  lemma SoFarJoin(start: seq<Message>, mid: seq<Message>, msgs: seq<Message>, k: nat, plan: seq<nat>,
                  times: seq<Instant>)
    requires 1 <= |times| <= |plan| && SentSoFar(start, mid, k, plan[1..], [Flying(plan[0], times[0])])
    requires SentSoFar(mid, msgs, k, plan[1..][|times| - 1..], Flights(plan[1..], times[1..]))
    ensures SentSoFar(start, msgs, k, plan[|times|..], Flights(plan, times))
  {
    FlightsCons(plan, times);
    var one, more := [Flying(plan[0], times[0])], Flights(plan[1..], times[1..]);
    assert start[k].inFlightQueue + one + more == start[k].inFlightQueue + (one + more);
  }

  lemma PlanIsNext(m: Message)
    requires m.nextFragment <= m.layout.count
    ensures NextOf(m, false) == if Plan(m) == [] then None else Some(Plan(m)[0])
  {
  }

  /** A send takes the front of the plan off, unless it repeats the head in flight. */
  lemma PlanStep(before: Message, after: Message, expired: bool, now: Instant)
    requires before.nextFragment <= before.layout.count && SentNext(before, after, expired, now)
    ensures var sent := [NextOf(before, expired).value];
            Plan(before) == (if Resends(before, expired) then [] else sent) + Plan(after)
  {
    var next, count := before.nextFragment, before.layout.count;
    if before.retransmitQueue != [] {
      FrontOff(before.retransmitQueue, Upwards(next, count));
    } else if next < count {
      FrontOff(Upwards(next, count), []);
    }
  }

  lemma FrontOff(q: seq<nat>, rest: seq<nat>)
    requires q != []
    ensures q + rest == [q[0]] + (q[1..] + rest) && (q + rest)[1..] == q[1..] + rest
  {
  }

  /** A message that is not complete has something to send, once what is in flight has timed out. */
  lemma NeverStuck(m: Message)
    requires m.Valid() && m.Accounted()
    ensures m.AllAcked() || (NextOf(m, true).Some? && ProbeOf(m).Some?)
  {
    AllAckedMeans(m);
    if m.retransmitQueue == [] && m.inFlightQueue == [] && m.nextFragment == m.layout.count {
      assert m.retransmitSet == {} && m.InFlight() == {};
    }
  }

  /** What a zero-window probe picks: no branch asks whether the fragment is acked. */
  function ProbeOf(m: Message): Option<nat> {
    if m.retransmitQueue != [] then Some(m.retransmitQueue[0])
    else if m.nextFragment < m.layout.count then Some(m.nextFragment)
    else if m.inFlightQueue != [] then Some(m.inFlightQueue[0].idx)
    else None
  }

  /** The first message from `k` on that a probe can send from. */
  function FirstProbe(msgs: seq<Message>, k: nat): Option<nat>
    requires k <= |msgs|
    decreases |msgs| - k
  {
    if k == |msgs| then None else if ProbeOf(msgs[k]).Some? then Some(k) else FirstProbe(msgs, k + 1)
  }

  /** The probe went out; only new data moves the send mark. */
  ghost predicate Probed(before: Message, after: Message, now: Instant) {
    && ProbeOf(before).Some? && WentOut(before, after, ProbeOf(before).value)
    && Stamped(before, after, ProbeOf(before).value, now, 0)
    && var fresh' := before.retransmitQueue == [] && before.nextFragment < before.layout.count;
       after == before.(states := after.states, nextFragment := before.nextFragment + if fresh' then 1 else 0,
                        inFlightQueue := before.inFlightQueue + [Flying(ProbeOf(before).value, now)])
  }

  /** The count test is the test that every fragment is acked. */
  lemma AllAckedMeans(m: Message)
    requires m.Valid()
    ensures m.AllAcked() <==> forall i: nat | i < m.layout.count :: i in m.acked
  {
    CountFull(m.acked, 0, m.layout.count);
    if forall i: nat | i < m.layout.count :: i in m.acked {
      CountInConst(m.acked, 0, m.layout.count, true);
    }
  }

  lemma UpdateThenRemove(msgs: seq<Message>, k: nat, m: Message)
    requires k < |msgs|
    ensures msgs[k := m][..k] + msgs[k := m][k + 1..] == msgs[..k] + msgs[k + 1..]
  {
  }

  /** An ACK of one message, as far as the session's counter is concerned. */
  method AckMessage(msg: Message, base: nat, mask: Word, now: Instant) returns (m: Message, completed: nat)
    requires msg.Valid() && msg.Accounted() && base < 65536
    ensures m.Valid() && m.Accounted() && msg.AckedBy(m, base, mask, now)
    ensures m.acked == msg.acked + AckCover(base, mask, msg.layout.count)
    ensures completed + m.InFlightBytes() == msg.InFlightBytes()
    ensures m.InFlight() == msg.InFlight() - (m.acked - msg.acked) - msg.LostIn(m, base)
    ensures msg.LostIn(m, base) <= msg.InFlight()
    ensures m.AllAcked() <==> forall i: nat | i < m.layout.count :: i in m.acked
    ensures m.AllAcked() ==> m.InFlightBytes() == msg.layout.Bytes(msg.InFlight() * msg.acked)
    ensures m.AllAcked() && msg.Honest() ==> m.InFlightBytes() == 0
    ensures msg.Honest() && Within(AckCover(base, mask, msg.layout.count), msg.nextFragment) ==> m.Honest()
  {
    var res;
    ghost var lost;
    m, res, lost := msg.OnAck(base, mask, now);
    completed := res.completed;
    HonestAfterAck(msg, m, AckCover(base, mask, msg.layout.count), lost);
    AccountedAfterAck(msg, m, lost);
    AllAckedMeans(m);
    if m.AllAcked() {
      LateFlight(msg, m, lost);
      HonestLeavesNothing(msg);
    }
  }

  lemma HonestLeavesNothing(msg: Message)
    requires msg.Valid()
    ensures msg.Honest() ==> msg.layout.Bytes(msg.InFlight() * msg.acked) == 0
  {
    if msg.Honest() {
      assert msg.InFlight() * msg.acked == {};
      msg.layout.SumEmpty(msg.layout.count);
    }
  }

  predicate TimedOut(m: Message, now: Instant) {
    var elapsed := if now >= m.lastAckAt then now - m.lastAckAt else 0;
    elapsed >= m.timeout || elapsed >= CONNECTION_TIMEOUT
  }

  /** The entries whose message has not timed out. */
  function KeepLive(entries: seq<(nat, Message)>, now: Instant): seq<(nat, Message)> {
    if entries == [] then []
    else
      var n := |entries| - 1;
      KeepLive(entries[..n], now) + if TimedOut(entries[n].1, now) then [] else [entries[n]]
  }

  /** What stays has heard of its peer within its timeout and within the connection's. */
  lemma {:induction false} LiveMember(entries: seq<(nat, Message)>, now: Instant, e: (nat, Message))
    ensures e in KeepLive(entries, now) <==>
            && e in entries
            && var elapsed := if now >= e.1.lastAckAt then now - e.1.lastAckAt else 0;
               elapsed < e.1.timeout && elapsed < CONNECTION_TIMEOUT
  {
    if entries != [] {
      var n := |entries| - 1;
      LiveMember(entries[..n], now, e);
      assert entries == entries[..n] + [entries[n]];
    }
  }

  lemma PopRetransmit(m: Message)
    requires m.Valid() && m.retransmitQueue != []
    ensures m.(retransmitQueue := m.retransmitQueue[1..],
               retransmitSet := m.retransmitSet - {m.retransmitQueue[0]}).Valid()
  {
    ListsPopFront(m.retransmitQueue, m.retransmitSet);
  }

  /** Sending again a fragment that is unacked and was sent before keeps the peer's answers plausible. */
  lemma HonestAfterResend(msg: Message, m: Message, idx: nat)
    requires m.Sent() == msg.Sent() + {idx} && m.InFlight() == msg.InFlight() + {idx}
    requires m.acked == msg.acked && m.retransmitSet <= msg.retransmitSet && m.nextFragment == msg.nextFragment
    requires idx in msg.InFlight() || (idx in msg.retransmitSet && idx !in msg.acked)
    requires msg.Valid()
    ensures msg.Honest() ==> m.Honest()
  {
    StatesMember(msg.states, idx);
  }

  lemma NewKeeps(msg: Message, sent: Message, m: Message)
    requires msg.Accounted() && sent.Valid() && msg.nextFragment < msg.layout.count
    requires sent == msg.(states := sent.states, inFlightQueue := sent.inFlightQueue)
    requires sent.Sent() == msg.Sent() + {msg.nextFragment} && sent.InFlight() == msg.InFlight() + {msg.nextFragment}
    requires m == sent.(nextFragment := msg.nextFragment + 1)
    ensures m.Valid() && m.Accounted() && m.InFlight() == sent.InFlight() && (msg.Honest() ==> m.Honest())
  {
    HonestAfterNew(msg, m);
  }

  lemma HonestAfterNew(msg: Message, m: Message)
    requires m.Sent() == msg.Sent() + {msg.nextFragment} && m.InFlight() == msg.InFlight() + {msg.nextFragment}
    requires m.acked == msg.acked && m.retransmitSet == msg.retransmitSet && m.nextFragment == msg.nextFragment + 1
    ensures msg.Honest() ==> m.Honest()
  {
  }

  lemma HonestAfterAck(msg: Message, m: Message, cover: set<nat>, lost: set<nat>)
    requires msg.Valid() && m.Sent() == msg.Sent() && m.nextFragment == msg.nextFragment
    requires m.acked == msg.acked + cover && lost <= msg.InFlight()
    requires m.InFlight() == msg.InFlight() - (m.acked - msg.acked) - lost
    requires m.retransmitSet == msg.retransmitSet + lost - m.acked
    ensures msg.Honest() && Within(cover, msg.nextFragment) ==> m.Honest()
  {
    forall i | i in lost ensures i in msg.Sent() { StatesMember(msg.states, i); }
  }

  lemma AccountedAfterAck(msg: Message, m: Message, lost: set<nat>)
    requires msg.Accounted() && m.nextFragment == msg.nextFragment && msg.acked <= m.acked
    requires m.InFlight() == msg.InFlight() - (m.acked - msg.acked) - lost
    requires m.retransmitSet == msg.retransmitSet + lost - m.acked
    ensures m.Accounted()
  {
  }

  lemma HonestAfterNack(msg: Message, m: Message, wanted: set<nat>)
    requires m.Sent() == msg.Sent() && m.nextFragment == msg.nextFragment && m.acked == msg.acked
    requires m.InFlight() == msg.InFlight() - wanted && m.retransmitSet == msg.retransmitSet + wanted
    ensures msg.Honest() && Within(wanted, msg.nextFragment) ==> m.Honest()
  {
  }

  /** When everything is acked, the flight is what was in flight and acked beforehand. */
  lemma LateFlight(msg: Message, m: Message, lost: set<nat>)
    requires msg.Valid() && m.layout == msg.layout && lost <= msg.InFlight() && lost !! m.acked
    requires m.InFlight() == msg.InFlight() - (m.acked - msg.acked) - lost
    requires forall i: nat | i < m.layout.count :: i in m.acked
    ensures m.InFlight() == msg.InFlight() * msg.acked
  {
    forall i: nat ensures i in m.InFlight() <==> i in msg.InFlight() * msg.acked {
      StatesMember(msg.states, i);
    }
  }

  /** Sending the head again and dropping its old entry leaves the same set of fragments queued. */
  lemma RequeueKeepsIndices(q: seq<Flying>, now: Instant)
    requires |q| > 0
    ensures Indices((q + [Flying(q[0].idx, now)])[1..]) == Indices(q)
  {
    var e := Flying(q[0].idx, now);
    var rest := q[1..];
    IndicesSplit(q);
    IndicesPush(rest, e);
    PopAndPush(q, e);
  }

  lemma PopAndPush(q: seq<Flying>, e: Flying)
    requires |q| > 0
    ensures (q + [e])[1..] == q[1..] + [e]
  {
  }

  /**
   The honesty condition is needed.  A peer acks fragment 1 before it was sent; the main
   loop would not send it any more, but a zero-window probe does, and the session ends
   with 647 bytes counted and no message left.
   */
  method EarlyAckLeaks() returns (s: Session)
    ensures s.Valid() && s.msgs == [] && s.inFlight == 647
  {
    s := AckAhead();
    ProbeTwice(s);
    FinishTwo(s);
  }

  lemma CoverTwo()
    ensures AckCover(2, Zero(), 2) == {0, 1}
    ensures var l := Layout(2000, PAYLOAD_MTU, 2); l.Ok() && l.Bytes({1}) == 647
  {
    forall i: nat ensures i in AckCover(2, Zero(), 2) <==> i < 2 { WrapAddsNothing(2, Zero(), 2, i); }
    var l := Layout(2000, PAYLOAD_MTU, 2);
    assert l.Bytes({1}) == l.Sum({1}, 2);
  }

  /** The ACK of both fragments completes the message; the second, acked before it was sent, stays counted. */
  method FinishTwo(s: Session)
    requires s.Valid() && |s.ids| == |s.msgs| == 1 && s.leaked == 0
    requires var m := s.msgs[0];
             m.layout == Layout(2000, PAYLOAD_MTU, 2) && m.acked == {1} && m.InFlight() == {0, 1}
    modifies s
    ensures s.Valid() && s.msgs == [] && s.inFlight == 647
  {
    CoverTwo();
    assert {0, 1} * {1} == {1};
    var slot, complete, completed := s.HandleAck(s.ids[0], 2, Zero(), 3);
  }

  /** One message of two fragments, the second acked before anything was sent. */
  method AckAhead() returns (s: Session)
    ensures fresh(s) && s.Valid() && |s.ids| == |s.msgs| == 1 && s.inFlight == s.leaked == 0
    ensures var m := s.msgs[0];
            && m.layout == Layout(2000, PAYLOAD_MTU, 2) && m.acked == {1} && m.nextFragment == 0
            && m.InFlight() == {} && m.retransmitQueue == []
  {
    s := new Session(0);
    var id, _ := s.SendMessage(2000, 0);
    assert s.msgs[0].layout == Layout(2000, PAYLOAD_MTU, 2) && s.ids == [id.value];
    var mask := Single(0);
    assert AckCover(0, mask, 2) == {1} by {
      forall i: nat ensures i in AckCover(0, mask, 2) <==> i == 1 { WrapAddsNothing(0, mask, 2, i); }
    }
    assert s.ids[0] == id.value && 0 !in s.msgs[0].acked + {1};
    ghost var msg := s.msgs[0];
    var slot, complete, completed := s.HandleAck(id.value, 0, mask, 0);
    QuietAck(msg, s.msgs[0], mask);
  }

  /** With nothing in flight or queued, an ACK queues nothing. */
  lemma QuietAck(msg: Message, m: Message, mask: Word)
    requires m.Valid() && msg.AckedBy(m, 0, mask, 0) && msg.LostIn(m, 0) <= msg.InFlight()
    requires msg.retransmitSet == {} && msg.InFlight() == {}
    ensures m.retransmitQueue == []
  {
    EmptyList(m.retransmitQueue);
  }

  lemma EmptyList(q: seq<nat>)
    ensures Lists(q, {}) ==> q == []
  {
    if q != [] { ElemsMember(q, q[0]); }
    ListsMeans(q, {});
  }

  /** Two probes of the only message send its two fragments, whatever is acked. */
  method ProbeTwice(s: Session)
    requires s.Valid() && |s.msgs| == 1 && s.leaked == 0
    requires var m := s.msgs[0];
             && m.layout == Layout(2000, PAYLOAD_MTU, 2) && m.nextFragment == 0 && m.InFlight() == {}
             && m.retransmitQueue == []
    modifies s
    ensures s.Valid() && s.ids == old(s.ids) && |s.msgs| == 1 && s.leaked == 0
    ensures s.msgs[0].layout == old(s.msgs)[0].layout && s.msgs[0].acked == old(s.msgs)[0].acked
    ensures s.msgs[0].InFlight() == {0, 1}
  {
    ProbeNew(s, 0, 1);
    ProbeNew(s, 1, 2);
  }

  /** A probe of the only message, with nothing queued, sends its next new fragment. */
  method ProbeNew(s: Session, n: nat, now: Instant)
    requires s.Valid() && |s.msgs| == 1 && s.leaked == 0 && n < 2
    requires var m := s.msgs[0];
             m.layout == Layout(2000, PAYLOAD_MTU, 2) && m.nextFragment == n && m.retransmitQueue == []
    modifies s
    ensures s.Valid() && s.ids == old(s.ids) && |s.msgs| == 1 && s.leaked == 0
    ensures var m, m' := old(s.msgs)[0], s.msgs[0];
            && m'.layout == m.layout && m'.acked == m.acked && m'.nextFragment == n + 1 && m'.retransmitQueue == []
            && m'.InFlight() == m.InFlight() + {n}
  {
    assert ProbeOf(s.msgs[0]) == Some(n) && FirstProbe(s.msgs, 0) == Some(0);
    var sent, slot := s.ProbeZeroWindow(now, true);
  }
}
