/**
 The receiving half of a tox-sequenced session: reassemblers and their memory
 reservations, the bounded cache of completed messages, and the wrap-around test
 for ancient ids.

 Each slot holds the contents of its reassembler.  What the shared quota answers is a
 parameter, and so is whether a payload can be decoded; `log` lists this session's calls on
 the quota with their answers.
 */
module ReceiveSession {
  import opened Wrappers
  import opened Sequences
  import Delivery
  import Quota
  import opened Protocol
  import opened Bytes
  import opened Contents
  import Outgoing

  const HALF: nat := 0x8000_0000
  const FAIR_SHARE_GUARANTEE: nat := 16384
  const COMPLETED_TIMEOUT: nat := 30

  type Id = x: nat | x < ID_SPACE

  /** `wrapping_sub` on 32-bit ids. */
  function WrappingSub(a: Id, b: Id): Id { (a - b) % ID_SPACE }

  datatype Reassembler = Reassembler(id: Id, total: nat, reserved: nat, lastActivity: nat, fragments: Fragments)

  datatype Completed = Completed(id: Id, at: nat)

  function NewHighest(highest: Option<Id>, id: Id): Option<Id> {
    if highest.None? || WrappingSub(id, highest.value) < HALF then Some(id) else highest
  }

  function InitialReservation(total: nat, dataLen: nat): nat {
    if total <= 1 then dataLen
    else (if dataLen > ESTIMATED_PAYLOAD_SIZE then dataLen else ESTIMATED_PAYLOAD_SIZE) * total
  }

  /** The first reservation covers all fragments if they are as long as this one, or as estimated. */
  lemma InitialCovers(total: nat, dataLen: nat)
    requires total >= 1
    ensures InitialReservation(total, dataLen) >= total * dataLen
    ensures total > 1 ==> InitialReservation(total, dataLen) >= total * ESTIMATED_PAYLOAD_SIZE
  {
    var longest := if dataLen > ESTIMATED_PAYLOAD_SIZE then dataLen else ESTIMATED_PAYLOAD_SIZE;
    assert total * dataLen <= total * longest && total * ESTIMATED_PAYLOAD_SIZE <= total * longest;
  }

  /** What a fragment does to a reassembler: the contents then, the size planned, and whether the payload decodes. */
  datatype Outcome =
    | Rejected
    | Added(planned: nat, fragments: Fragments)
    | Finished(planned: nat, fragments: Fragments, decoded: bool)

  function OutcomeOf(f: Fragments, index: nat, data: seq<Byte>, decodes: seq<Byte> -> bool): Outcome
    requires f != []
  {
    match Accept(f, index, data)
    case Refused => Rejected
    case Held(g, complete) =>
      if complete then Finished(Planned(g), g, decodes(Joined(g))) else Added(Planned(g), g)
  }

  function Empty(total: nat): Fragments { seq(total, _ => None) }

  // ------------------------------------------------------ sums over the slots

  function Reserved(slots: seq<Reassembler>): nat {
    if slots == [] then 0 else Reserved(slots[..|slots| - 1]) + slots[|slots| - 1].reserved
  }

  lemma {:induction false} ReservedUpdate(slots: seq<Reassembler>, k: nat, r: Reassembler)
    requires k < |slots|
    ensures Reserved(slots) >= slots[k].reserved
    ensures Reserved(slots[k := r]) == Reserved(slots) - slots[k].reserved + r.reserved
  {
    var n := |slots| - 1;
    if k < n {
      ReservedUpdate(slots[..n], k, r);
      assert slots[k := r][..n] == slots[..n][k := r];
    } else {
      assert slots[k := r][..n] == slots[..n];
    }
  }

  lemma PushThenWithout(slots: seq<Reassembler>, r: Reassembler)
    ensures Without(slots + [r], |slots|) == slots
  {
  }

  lemma {:induction false} ReservedRemove(slots: seq<Reassembler>, k: nat)
    requires k < |slots|
    ensures Reserved(Without(slots, k)) == Reserved(slots) - slots[k].reserved
  {
    var rest, n := Without(slots, k), |slots| - 1;
    if k == n {
      assert rest == slots[..n];
    } else {
      ReservedRemove(slots[..n], k);
      WithoutInit(slots, k);
    }
  }

  lemma ReservedPush(slots: seq<Reassembler>, r: Reassembler)
    ensures Reserved(slots + [r]) == Reserved(slots) + r.reserved
  {
    assert (slots + [r])[..|slots|] == slots;
  }

  /** One slot for an id, with room for each of its fragments. */
  ghost predicate SlotsOk(slots: seq<Reassembler>) {
    && (forall i, j | 0 <= i < j < |slots| :: slots[i].id != slots[j].id)
    && forall i | 0 <= i < |slots| :: 1 <= |slots[i].fragments| == slots[i].total <= MAX_FRAGMENTS_PER_MESSAGE
  }

  lemma OneLess(slots: seq<Reassembler>, k: nat)
    requires SlotsOk(slots) && k < |slots|
    ensures SlotsOk(Without(slots, k)) && |Without(slots, k)| == |slots| - 1
    ensures Reserved(slots) >= slots[k].reserved && Reserved(Without(slots, k)) == Reserved(slots) - slots[k].reserved
  {
    ReservedRemove(slots, k);
    ReservedUpdate(slots, k, slots[k]);
  }

  /** The slot of an id. */
  function SlotOf(slots: seq<Reassembler>, id: Id): (k: Option<nat>)
    ensures k.Some? ==> k.value < |slots| && slots[k.value].id == id
    ensures k.None? ==> forall i | 0 <= i < |slots| :: slots[i].id != id
  {
    if slots == [] then None
    else if slots[|slots| - 1].id == id then Some(|slots| - 1)
    else SlotOf(slots[..|slots| - 1], id)
  }

  /** What is held for an id. */
  function HeldFor(slots: seq<Reassembler>, id: Id): Option<Reassembler> {
    var k := SlotOf(slots, id);
    if k.None? then None else Some(slots[k.value])
  }

  /** The slots of all other ids, in order. */
  function Others(slots: seq<Reassembler>, id: Id): seq<Reassembler> {
    if slots == [] then []
    else
      var n := |slots| - 1;
      Others(slots[..n], id) + if slots[n].id == id then [] else [slots[n]]
  }

  lemma HeldAt(slots: seq<Reassembler>, k: nat)
    requires SlotsOk(slots) && k < |slots|
    ensures SlotOf(slots, slots[k].id) == Some(k)
  {
  }

  lemma {:induction false} OthersAll(slots: seq<Reassembler>, id: Id)
    requires forall i | 0 <= i < |slots| :: slots[i].id != id
    ensures Others(slots, id) == slots
  {
    if slots != [] { OthersAll(slots[..|slots| - 1], id); }
  }

  lemma {:induction false} OthersUpdate(slots: seq<Reassembler>, k: nat, r: Reassembler)
    requires k < |slots| && slots[k].id == r.id
    ensures Others(slots[k := r], r.id) == Others(slots, r.id)
  {
    var n := |slots| - 1;
    if k < n {
      OthersUpdate(slots[..n], k, r);
      assert slots[k := r][..n] == slots[..n][k := r];
    } else {
      assert slots[k := r][..n] == slots[..n];
    }
  }

  lemma {:induction false} OthersWithout(slots: seq<Reassembler>, k: nat)
    requires SlotsOk(slots) && k < |slots|
    ensures Others(slots, slots[k].id) == Without(slots, k)
  {
    var n, id := |slots| - 1, slots[k].id;
    if k < n {
      OthersWithout(slots[..n], k);
      WithoutInit(slots, k);
    } else {
      OthersAll(slots[..n], id);
      assert Without(slots, k) == slots[..n];
    }
  }

  lemma OthersPush(slots: seq<Reassembler>, r: Reassembler)
    ensures Others(slots + [r], r.id) == Others(slots, r.id)
  {
    assert (slots + [r])[..|slots|] == slots;
  }

  /** Counts and bytes of all slots, with one set apart. */
  lemma OthersSum(slots: seq<Reassembler>, id: Id)
    requires SlotsOk(slots)
    ensures var h, others := HeldFor(slots, id), Others(slots, id);
            && Reserved(slots) == Reserved(others) + (if h.Some? then h.value.reserved else 0)
            && |slots| == |others| + (if h.Some? then 1 else 0)
  {
    var k := SlotOf(slots, id);
    if k.Some? {
      OthersWithout(slots, k.value);
      ReservedRemove(slots, k.value);
      ReservedUpdate(slots, k.value, slots[k.value]);
    } else {
      OthersAll(slots, id);
    }
  }

  class Session {
    const maxPerSession: nat
    var incoming: seq<Reassembler>
    var incomingBufferSize: nat
    var completed: seq<Completed>
    var highest: Option<Id>
    /** Ids of the `MessageCompleted` events of data messages, oldest first. */
    var delivered: seq<Id>
    /** Their payloads. */
    var payloads: seq<seq<Byte>>
    /** The calls on the quota, oldest first. */
    ghost var log: seq<Quota.Call>

    /** Memory: the counter is the sum of the reservations, equals what the quota holds for us, and is capped. */
    ghost predicate Valid()
      reads this
    {
      && |incoming| <= MAX_CONCURRENT_INCOMING && SlotsOk(incoming)
      && |completed| <= MAX_COMPLETED_INCOMING && |payloads| == |delivered|
      && incomingBufferSize == Reserved(incoming) == Quota.Net(log) <= maxPerSession && Quota.Legal(log)
    }

    constructor (max: nat)
      ensures Valid() && maxPerSession == max && incoming == [] && completed == [] && highest == None && delivered == []
      ensures log == [] && (forall origin: Id :: Once(origin)) && forall sent, mtu :: Faithful(sent, mtu)
    {
      maxPerSession, incoming, incomingBufferSize := max, [], 0;
      completed, highest, delivered, payloads, log := [], None, [], [], [];
    }

    predicate InCompleted(id: Id)
      reads this
    {
      exists k | 0 <= k < |completed| :: completed[k].id == id
    }

    method Find(id: Id) returns (r: Option<nat>)
      requires SlotsOk(incoming)
      ensures r == SlotOf(incoming, id)
    {
      for k := 0 to |incoming|
        invariant forall j | 0 <= j < k :: incoming[j].id != id
      {
        if incoming[k].id == id { return Some(k); }
      }
      return None;
    }

    predicate InIncoming(id: Id)
      reads this
    {
      exists k | 0 <= k < |incoming| :: incoming[k].id == id
    }

    /** `is_ancient_message` */
    predicate IsAncient(id: Id)
      reads this
    {
      && highest.Some?
      && var diff := WrappingSub(id, highest.value);
         if diff > HALF then
           var offset := WrappingSub(highest.value, id);
           || offset >= MAX_COMPLETED_INCOMING
           || (!InIncoming(id) && !InCompleted(id) && offset > LOOKBACK)
         else
           diff == 0 && !InIncoming(id) && !InCompleted(id)
    }

    /** A reserve call with the quota's answer; within the fair share it goes past the priority thresholds. */
    method Reserve(amount: nat, granted: bool) returns (ok: bool)
      requires Quota.Legal(log)
      modifies `log
      ensures ok == granted && Quota.Legal(log)
      ensures log == old(log) + [Quota.Reserve(amount, incomingBufferSize + amount <= FAIR_SHARE_GUARANTEE, ok)]
      ensures Quota.Net(log) == Quota.Net(old(log)) + if ok then amount else 0
    {
      ghost var call := Quota.Reserve(amount, incomingBufferSize + amount <= FAIR_SHARE_GUARANTEE, granted);
      Quota.NetPush(log, call);
      ok, log := granted, log + [call];
    }

    /** A release call gives back no more than is held, so it never saturates. */
    method Release(amount: nat)
      requires Quota.Legal(log) && amount <= Quota.Net(log)
      modifies `log
      ensures log == old(log) + [Quota.Release(amount)] && Quota.Legal(log)
      ensures Quota.Net(log) == Quota.Net(old(log)) - amount
    {
      Quota.NetPush(log, Quota.Release(amount));
      log := log + [Quota.Release(amount)];
    }

    /** Finds or creates the reassembler of a message. */
    method EnsureReassembler(id: Id, total: nat, dataLen: nat, now: nat, granted: bool) returns (slot: Option<nat>)
      requires Valid()
      modifies `incoming, `incomingBufferSize, `highest, `log
      ensures Valid()
      ensures slot.Some? ==> slot.value < |incoming| && incoming[slot.value].id == id
      ensures old(InIncoming(id)) ==>
        && incoming == old(incoming) && highest == old(highest) && incomingBufferSize == old(incomingBufferSize)
        && var k := SlotOf(incoming, id);
           k.Some? && slot == if incoming[k.value].total == total then k else None
      ensures !old(InIncoming(id)) ==>
        (slot.Some? <==>
         && |old(incoming)| < MAX_CONCURRENT_INCOMING && granted && 1 <= total <= MAX_FRAGMENTS_PER_MESSAGE
         && old(incomingBufferSize) + InitialReservation(total, dataLen) <= maxPerSession)
      ensures !old(InIncoming(id)) && slot.None? ==> incoming == old(incoming) && highest == old(highest)
      ensures !old(InIncoming(id)) && slot.Some? ==>
        && slot == Some(|old(incoming)|) && highest == NewHighest(old(highest), id)
        && incoming == old(incoming) + [Reassembler(id, total, InitialReservation(total, dataLen), now, Empty(total))]
    {
      var found := Find(id);
      if found.Some? {
        slot := if incoming[found.value].total == total then found else None;
      } else {
        slot := OpenNew(id, total, InitialReservation(total, dataLen), now, granted);
      }
    }

    /** Reserves memory for a message with no reassembler and opens one. */
    method OpenNew(id: Id, total: nat, initial: nat, now: nat, granted: bool) returns (slot: Option<nat>)
      requires Valid() && !InIncoming(id)
      modifies `incoming, `incomingBufferSize, `highest, `log
      ensures Valid()
      ensures slot.Some? <==>
        && |old(incoming)| < MAX_CONCURRENT_INCOMING && granted && 1 <= total <= MAX_FRAGMENTS_PER_MESSAGE
        && old(incomingBufferSize) + initial <= maxPerSession
      ensures slot.None? ==> incoming == old(incoming) && highest == old(highest)
      ensures slot.Some? ==>
        && slot == Some(|old(incoming)|) && highest == NewHighest(old(highest), id)
        && incoming == old(incoming) + [Reassembler(id, total, initial, now, Empty(total))]
    {
      if |incoming| >= MAX_CONCURRENT_INCOMING { return None; }
      var reserved := Reserve(initial, granted);
      if !reserved || incomingBufferSize + initial > maxPerSession {
        if reserved { Release(initial); }
        return None;
      }
      if total == 0 || total > MAX_FRAGMENTS_PER_MESSAGE {
        Release(initial);
        return None;
      }
      Open(Reassembler(id, total, initial, now, Empty(total)));
      return Some(|incoming| - 1);
    }

    /** Takes a reserved slot for a new message and raises the highest id. */
    method Open(r: Reassembler)
      requires |incoming| < MAX_CONCURRENT_INCOMING && SlotsOk(incoming) && !InIncoming(r.id)
      requires |completed| <= MAX_COMPLETED_INCOMING && |payloads| == |delivered|
      requires 1 <= |r.fragments| == r.total <= MAX_FRAGMENTS_PER_MESSAGE
      requires incomingBufferSize == Reserved(incoming)
      requires incomingBufferSize + r.reserved == Quota.Net(log) <= maxPerSession
      requires Quota.Legal(log)
      modifies `incoming, `incomingBufferSize, `highest
      ensures Valid() && incoming == old(incoming) + [r] && highest == NewHighest(old(highest), r.id)
    {
      ReservedPush(incoming, r);
      incomingBufferSize := incomingBufferSize + r.reserved;
      incoming := incoming + [r];
      highest := NewHighest(highest, r.id);
    }

    /** Drops a reassembler and gives its reservation back. */
    method Discard(k: nat)
      requires Valid() && k < |incoming|
      modifies `incoming, `incomingBufferSize, `log
      ensures Valid() && incoming == Without(old(incoming), k)
      ensures incomingBufferSize == old(incomingBufferSize) - old(incoming)[k].reserved
    {
      OneLess(incoming, k);
      var reserved := incoming[k].reserved;
      incoming := Without(incoming, k);
      incomingBufferSize := incomingBufferSize - reserved;
      Release(reserved);
    }

    /** The same, with what it does to delivery: nothing. */
    method Forsake(k: nat)
      requires Valid() && k < |incoming|
      modifies `incoming, `incomingBufferSize, `log
      ensures Valid() && incoming == Without(old(incoming), k) && incomingBufferSize <= old(incomingBufferSize)
      ensures forall origin | old(Once(origin)) :: Once(origin)
    {
      DropForAll(highest, incoming, k, completed, delivered);
      Discard(k);
    }

    /** Re-sizes the reservation to the newly planned size; a refused growth costs the whole message. */
    method Resize(k: nat, planned: nat, granted: bool) returns (kept: bool)
      requires Valid() && k < |incoming|
      modifies `incoming, `incomingBufferSize, `log
      ensures Valid()
      ensures kept <==> || planned <= old(incoming)[k].reserved
                        || (granted && old(incomingBufferSize) + (planned - old(incoming)[k].reserved) <= maxPerSession)
      ensures kept ==>
        |incoming| == |old(incoming)| && incoming == old(incoming)[k := old(incoming)[k].(reserved := planned)]
      ensures !kept ==> incoming == Without(old(incoming), k)
    {
      var r := incoming[k];
      ReservedUpdate(incoming, k, r.(reserved := planned));
      if planned == r.reserved {
        assert incoming == incoming[k := r];
        return true;
      }
      if planned > r.reserved {
        var addition := planned - r.reserved;
        var reserved := Reserve(addition, granted);
        if !reserved || incomingBufferSize + addition > maxPerSession {
          if reserved { Release(addition); }
          Discard(k);
          return false;
        }
        incomingBufferSize := incomingBufferSize + addition;
      } else {
        var reduction := r.reserved - planned;
        Release(reduction);
        incomingBufferSize := incomingBufferSize - reduction;
      }
      incoming := incoming[k := r.(reserved := planned)];
      return true;
    }

    /** Remembers a completed id, evicting the oldest once there are more than 1024. */
    method Remember(id: Id, now: nat)
      requires |completed| <= MAX_COMPLETED_INCOMING && !InCompleted(id)
      modifies `completed
      ensures |completed| <= MAX_COMPLETED_INCOMING
      ensures completed == CacheOf(old(completed), Completed(id, now))
    {
      completed := completed + [Completed(id, now)];
      if |completed| > MAX_COMPLETED_INCOMING {
        assert completed[1..] == old(completed)[1..] + [Completed(id, now)];
        completed := completed[1..];
      }
    }

    // ------------------------------------------------------------ delivery

    /** No id was delivered twice, and none can be while ids stay within half the space from `origin`. */
    ghost predicate Once(origin: Id)
      reads this
    {
      OnceOf(origin, highest, incoming, completed, delivered)
    }

    /** A new id that a single packet can open, and complete if it is the whole message. */
    predicate Deliverable(id: Id, total: nat, dataLen: nat)
      reads this
    {
      && !InCompleted(id) && !InIncoming(id) && !IsAncient(id)
      && |incoming| < MAX_CONCURRENT_INCOMING && 1 <= total <= MAX_FRAGMENTS_PER_MESSAGE
      && incomingBufferSize + InitialReservation(total, dataLen) <= maxPerSession
    }

    /** The slot that takes a fragment, as it is before; a new one if need be. */
    function SlotFor(id: Id, total: nat, dataLen: nat, now: nat, granted: bool): (r: Option<Reassembler>)
      reads this
    {
      if InCompleted(id) || IsAncient(id) then None
      else
        var k, initial := SlotOf(incoming, id), InitialReservation(total, dataLen);
        if k.Some? then (if incoming[k.value].total == total then Some(incoming[k.value]) else None)
        else if Deliverable(id, total, dataLen) && granted then Some(Reassembler(id, total, initial, now, Empty(total)))
        else None
    }

    /** The buffer size with that slot. */
    function SizeWith(id: Id, total: nat, dataLen: nat): nat
      reads this
    {
      incomingBufferSize + if SlotOf(incoming, id).None? then InitialReservation(total, dataLen) else 0
    }

    /** What a packet finishes: its slot becomes complete, and the memory planned for it is there. */
    function Finishes(id: Id, index: nat, total: nat, data: seq<Byte>, now: nat, granted: bool, grantedMore: bool,
                      decodes: seq<Byte> -> bool): Option<Outcome>
      reads this
    {
      var slot := SlotFor(id, total, |data|, now, granted);
      if slot.None? then None
      else FinishOf(slot.value, SizeWith(id, total, |data|), maxPerSession, index, data, grantedMore, decodes)
    }

    /** What is held for the id after a packet: its slot with the fragment in it, unless that ends it. */
    function Holds(id: Id, index: nat, total: nat, data: seq<Byte>, now: nat, granted: bool, grantedMore: bool,
                   decodes: seq<Byte> -> bool): Option<Reassembler>
      reads this
    {
      var slot := SlotFor(id, total, |data|, now, granted);
      if slot.None? then HeldFor(incoming, id)
      else AfterFragment(slot.value, SizeWith(id, total, |data|), maxPerSession, index, data, now, grantedMore, decodes)
    }

    /**
     One DATA packet.  Reservations stay exact whatever the quota answers; an id is delivered
     exactly when this packet finishes it and it can be decoded, with the payload put together;
     while ids stay within half the id space no id is delivered twice; and as long as the
     packets are fragments of what was sent, what is delivered is what was sent.
     */
    method HandleData(id: Id, index: nat, total: nat, data: seq<Byte>, now: nat, granted: bool, grantedMore: bool,
                      decodes: seq<Byte> -> bool, ghost sent: Id -> seq<Byte>, ghost mtu: nat)
      requires Valid()
      modifies `incoming, `incomingBufferSize, `completed, `highest, `delivered, `payloads, `log
      ensures Valid()
      ensures var out := old(Finishes(id, index, total, data, now, granted, grantedMore, decodes));
              && Recorded(id, now, out, old(completed), completed, old(delivered), delivered, old(payloads), payloads)
              && (out.Some? && !old(InIncoming(id)) ==>
                    incoming == old(incoming) && highest == NewHighest(old(highest), id))
      ensures HeldFor(incoming, id) == old(Holds(id, index, total, data, now, granted, grantedMore, decodes))
      ensures Others(incoming, id) == Others(old(incoming), id)
      ensures highest == if old(InIncoming(id)) || old(SlotFor(id, total, |data|, now, granted)).None? then old(highest)
                         else NewHighest(old(highest), id)
      ensures forall origin | old(Once(origin)) && Pos(origin, id) < HALF :: Once(origin)
      ensures old(Faithful(sent, mtu)) && IsFragment(data, sent(id), mtu, index, total) ==> Faithful(sent, mtu)
    {
      ghost var slots, size := incoming, SizeWith(id, total, |data|);
      ghost var slot := SlotFor(id, total, |data|, now, granted);
      Receive(id, index, total, data, now, granted, grantedMore, decodes);
      if old(Faithful(sent, mtu)) && IsFragment(data, sent(id), mtu, index, total) {
        SlotCarries(slots, id, total, |data|, now, sent, mtu);
        if slot.Some? {
          FragmentCarries(slot.value, size, maxPerSession, sent(id), mtu, index, data, now, grantedMore, decodes);
        }
        CarryFrom(slots, incoming, id, sent, mtu);
      }
    }

    /** The packet itself. */
    method Receive(id: Id, index: nat, total: nat, data: seq<Byte>, now: nat, granted: bool, grantedMore: bool,
                   decodes: seq<Byte> -> bool)
      requires Valid()
      modifies `incoming, `incomingBufferSize, `completed, `highest, `delivered, `payloads, `log
      ensures Valid()
      ensures var out := old(Finishes(id, index, total, data, now, granted, grantedMore, decodes));
              && Recorded(id, now, out, old(completed), completed, old(delivered), delivered, old(payloads), payloads)
              && (out.Some? && !old(InIncoming(id)) ==> incoming == old(incoming))
      ensures HeldFor(incoming, id) == old(Holds(id, index, total, data, now, granted, grantedMore, decodes))
      ensures Others(incoming, id) == Others(old(incoming), id)
      ensures highest == if old(InIncoming(id)) || old(SlotFor(id, total, |data|, now, granted)).None? then old(highest)
                         else NewHighest(old(highest), id)
      ensures forall origin | old(Once(origin)) && Pos(origin, id) < HALF :: Once(origin)
    {
      if InCompleted(id) { return; }
      if IsAncient(id) { return; }
      var slot := Admit(id, total, |data|, now, granted);
      if slot.Some? {
        ghost var slots, size := incoming, incomingBufferSize;
        if !old(InIncoming(id)) { PushApart(old(incoming), incoming[slot.value]); }
        ProcessFragment(slot.value, index, data, now, grantedMore, decodes);
        StepHolds(slots, slot.value, size, maxPerSession, index, data, now, grantedMore, decodes, incoming);
      }
    }

    /** For an id that is neither completed nor ancient: the slot there is, or a new one if there is room. */
    lemma SlotForIs(id: Id, total: nat, dataLen: nat, now: nat, granted: bool)
      requires !InCompleted(id) && !IsAncient(id)
      ensures InIncoming(id) <==> SlotOf(incoming, id).Some?
      ensures !InIncoming(id) ==> Recent(id, highest) && Fresh(id, incoming, completed)
      ensures var k, initial := SlotOf(incoming, id), InitialReservation(total, dataLen);
              SlotFor(id, total, dataLen, now, granted)
              == if k.Some? then (if incoming[k.value].total == total then Some(incoming[k.value]) else None)
                 else if && |incoming| < MAX_CONCURRENT_INCOMING && granted && 1 <= total <= MAX_FRAGMENTS_PER_MESSAGE
                         && incomingBufferSize + initial <= maxPerSession
                 then Some(Reassembler(id, total, initial, now, Empty(total)))
                 else None
    {
    }

    /** Finds or opens the reassembler of an id that is neither completed nor ancient. */
    method Admit(id: Id, total: nat, dataLen: nat, now: nat, granted: bool) returns (slot: Option<nat>)
      requires Valid() && !InCompleted(id) && !IsAncient(id)
      modifies `incoming, `incomingBufferSize, `highest, `log
      ensures Valid()
      ensures slot.Some? <==> old(SlotFor(id, total, dataLen, now, granted)).Some?
      ensures slot.Some? ==>
        && slot.value < |incoming| && incoming[slot.value] == old(SlotFor(id, total, dataLen, now, granted)).value
        && incoming[slot.value].id == id && incoming[slot.value].total == total
        && incomingBufferSize == old(SizeWith(id, total, dataLen))
      ensures old(InIncoming(id)) || slot.None? ==> incoming == old(incoming) && highest == old(highest)
      ensures !old(InIncoming(id)) && slot.Some? ==>
        && slot.value == |old(incoming)| && incoming == old(incoming) + [incoming[slot.value]]
        && highest == NewHighest(old(highest), id)
      ensures forall origin | old(Once(origin)) && Pos(origin, id) < HALF :: Once(origin)
    {
      SlotForIs(id, total, dataLen, now, granted);
      slot := EnsureReassembler(id, total, dataLen, now, granted);
      if !old(InIncoming(id)) && slot.Some? {
        AdmitForAll(incoming[slot.value], old(highest), old(incoming), completed, delivered);
      }
    }

    method ProcessFragment(k: nat, index: nat, data: seq<Byte>, now: nat, grantedMore: bool, decodes: seq<Byte> -> bool)
      requires Valid() && k < |incoming| && !InCompleted(incoming[k].id)
      modifies `incoming, `incomingBufferSize, `completed, `delivered, `payloads, `log
      ensures Valid()
      ensures var r := old(incoming)[k];
              var out := OutcomeOf(r.fragments, index, data, decodes);
              var finished := FinishOf(r, old(incomingBufferSize), maxPerSession, index, data, grantedMore, decodes);
              && Stepped(old(incoming), k, out, Keeps(r, out, old(incomingBufferSize), maxPerSession, grantedMore),
                         now, incoming)
              && Recorded(r.id, now, finished, old(completed), completed, old(delivered),
                          delivered, old(payloads), payloads)
      ensures forall origin | old(Once(origin)) :: Once(origin)
    {
      var out := OutcomeOf(incoming[k].fragments, index, data, decodes);
      if out == Rejected {
        Forsake(k);
      } else {
        var kept := Update(k, now, out.planned, out.fragments, grantedMore);
        if kept && out.Finished? { Finish(k, now, Joined(out.fragments), out.decoded); }
      }
    }

    /** Stores the contents and resizes the reservation; a refused growth costs the whole message. */
    method Update(k: nat, now: nat, planned: nat, f: Fragments, granted: bool) returns (kept: bool)
      requires Valid() && k < |incoming| && |f| == |incoming[k].fragments|
      modifies `incoming, `incomingBufferSize, `log
      ensures Valid()
      ensures (kept <==> Fits(old(incoming)[k].reserved, planned, old(incomingBufferSize), maxPerSession, granted))
      ensures kept ==>
        && |incoming| == |old(incoming)| && Without(incoming, k) == Without(old(incoming), k)
        && incoming == old(incoming)[k := old(incoming)[k].(reserved := planned, lastActivity := now, fragments := f)]
      ensures !kept ==> incoming == Without(old(incoming), k)
      ensures forall origin | old(Once(origin)) :: Once(origin)
    {
      var before := incoming[k];
      Touch(k, now, f);
      kept := Resize(k, planned, granted);
      if kept {
        WithoutUpdated(old(incoming), k, incoming[k]);
        SameForAll(highest, old(incoming), incoming, completed, delivered);
      } else {
        DropForAll(highest, old(incoming), k, completed, delivered);
      }
    }

    /** A fragment that is not refused is stored and marks its reassembler as active. */
    method Touch(k: nat, now: nat, f: Fragments)
      requires Valid() && k < |incoming| && |f| == |incoming[k].fragments|
      modifies `incoming
      ensures Valid() && incoming == old(incoming)[k := old(incoming)[k].(lastActivity := now, fragments := f)]
      ensures Without(incoming, k) == Without(old(incoming), k)
    {
      ReservedUpdate(incoming, k, incoming[k].(lastActivity := now, fragments := f));
      WithoutUpdated(incoming, k, incoming[k].(lastActivity := now, fragments := f));
      incoming := incoming[k := incoming[k].(lastActivity := now, fragments := f)];
    }

    /** All fragments are there: the slot is freed, the id cached, the event raised if the payload decodes. */
    method Finish(k: nat, now: nat, payload: seq<Byte>, decoded: bool)
      requires Valid() && k < |incoming| && !InCompleted(incoming[k].id)
      modifies `incoming, `incomingBufferSize, `completed, `delivered, `payloads, `log
      ensures Valid() && incoming == Without(old(incoming), k)
      ensures delivered == old(delivered) + (if decoded then [old(incoming)[k].id] else [])
      ensures payloads == old(payloads) + (if decoded then [payload] else [])
      ensures completed == CacheOf(old(completed), Completed(old(incoming)[k].id, now))
      ensures forall origin | old(Once(origin)) :: Once(origin)
    {
      var id := incoming[k].id;
      FinishForAll(highest, incoming, k, completed, delivered, now, decoded);
      Discard(k);
      if decoded { delivered, payloads := delivered + [id], payloads + [payload]; }
      Remember(id, now);
    }

    /** What was delivered is what was sent, and the slots hold fragments of it. */
    ghost predicate Faithful(sent: Id -> seq<Byte>, mtu: nat)
      reads this
    {
      AllCarry(incoming, sent, mtu) && AsSent(delivered, payloads, sent)
    }

    /** Every entry that expires now although its id was delivered lies more than the lookback behind. */
    ghost predicate SafeToForget(now: nat)
      reads this
    {
      SafeOf(highest, completed, delivered, now)
    }

    /**
     Reassembly timeouts give memory back; completed entries are forgotten after 30 seconds.
     Delivery stays at most once exactly when what is forgotten was safe to forget.
     */
    method Cleanup(now: nat)
      requires Valid()
      modifies `incoming, `incomingBufferSize, `completed, `log
      ensures Valid()
      ensures incoming == KeepActive(old(incoming), now) && incomingBufferSize <= old(incomingBufferSize)
      ensures completed == KeepRecent(old(completed), now)
      ensures forall origin | old(Once(origin)) :: Once(origin) <==> old(SafeToForget(now))
      ensures forall sent, mtu | old(Faithful(sent, mtu)) :: Faithful(sent, mtu)
    {
      KeptCarry(incoming, now);
      DropInactive(now);
      ForgetForAll(highest, incoming, completed, delivered, now);
      completed := KeepRecent(completed, now);
    }

    method DropInactive(now: nat)
      requires Valid()
      modifies `incoming, `incomingBufferSize, `log
      ensures Valid() && incoming == KeepActive(old(incoming), now) && incomingBufferSize <= old(incomingBufferSize)
      ensures forall origin | old(Once(origin)) :: Once(origin)
    {
      var k := 0;
      ghost var all, j := incoming, 0;
      while k < |incoming|
        invariant Valid() && incomingBufferSize <= old(incomingBufferSize)
        invariant Swept(incoming, all, j, k, now)
        invariant forall origin | old(Once(origin)) :: Once(origin)
        decreases |incoming| - k
      {
        SweepStep(incoming, all, j, k, now);
        if Inactive(incoming[k], now) {
          Forsake(k);
        } else {
          k := k + 1;
        }
        j := j + 1;
      }
      SweepEnd(incoming, all, j, k, now);
    }

    /** Dropping the session gives back everything it holds. */
    method Drop()
      requires Valid()
      modifies `incoming, `incomingBufferSize, `log
      ensures Valid() && incoming == [] && Quota.Net(log) == 0
      ensures log == old(log) + [Quota.Release(old(incomingBufferSize))]
    {
      Release(incomingBufferSize);
      incoming, incomingBufferSize := [], 0;
    }
  }

  predicate Inactive(r: Reassembler, now: nat) {
    now >= r.lastActivity && now - r.lastActivity >= REASSEMBLY_TIMEOUT
  }

  /** The reassemblers that a cleanup keeps, in order. */
  function KeepActive(slots: seq<Reassembler>, now: nat): seq<Reassembler> {
    if slots == [] then []
    else
      var n := |slots| - 1;
      KeepActive(slots[..n], now) + if Inactive(slots[n], now) then [] else [slots[n]]
  }

  lemma {:induction false} ActiveMember(slots: seq<Reassembler>, now: nat, r: Reassembler)
    ensures r in KeepActive(slots, now) <==>
            r in slots && (now < r.lastActivity || now - r.lastActivity < REASSEMBLY_TIMEOUT)
  {
    if slots != [] {
      var n := |slots| - 1;
      ActiveMember(slots[..n], now, r);
      assert slots == slots[..n] + [slots[n]];
    }
  }

  /** The first `j` slots of `all` are swept, `k` of them kept. */
  ghost predicate Swept(slots: seq<Reassembler>, all: seq<Reassembler>, j: nat, k: nat, now: nat) {
    j <= |all| && k == |KeepActive(all[..j], now)| && slots == KeepActive(all[..j], now) + all[j..]
  }

  lemma SweepStep(slots: seq<Reassembler>, all: seq<Reassembler>, j: nat, k: nat, now: nat)
    requires Swept(slots, all, j, k, now) && k < |slots|
    ensures Inactive(slots[k], now) ==> Swept(Without(slots, k), all, j + 1, k, now)
    ensures !Inactive(slots[k], now) ==> Swept(slots, all, j + 1, k + 1, now)
  {
    assert all[..j + 1][..j] == all[..j];
    assert slots[k] == all[j] && slots[..k] == KeepActive(all[..j], now) && slots[k + 1..] == all[j + 1..];
  }

  lemma SweepEnd(slots: seq<Reassembler>, all: seq<Reassembler>, j: nat, k: nat, now: nat)
    requires Swept(slots, all, j, k, now) && k >= |slots|
    ensures slots == KeepActive(all, now)
  {
    assert all[..j] == all && all[j..] == [];
  }

  lemma WithoutUpdated(slots: seq<Reassembler>, k: nat, r: Reassembler)
    requires k < |slots|
    ensures Without(slots[k := r], k) == Without(slots, k)
  {
  }

  /** Whether a slot of `reserved` bytes, in a buffer of `size`, can take the planned size. */
  predicate Fits(reserved: nat, planned: nat, size: nat, max: nat, granted: bool) {
    planned <= reserved || (granted && size + (planned - reserved) <= max)
  }

  /** Whether the slot outlives the fragment or is finished by it. */
  predicate Keeps(r: Reassembler, out: Outcome, size: nat, max: nat, granted: bool) {
    out != Rejected && Fits(r.reserved, out.planned, size, max, granted)
  }

  /** The outcome of a fragment that finishes the slot. */
  function FinishOf(r: Reassembler, size: nat, max: nat, index: nat, data: seq<Byte>, granted: bool,
                    decodes: seq<Byte> -> bool): Option<Outcome>
  {
    if r.fragments == [] then None
    else
      var out := OutcomeOf(r.fragments, index, data, decodes);
      if out.Finished? && Keeps(r, out, size, max, granted) then Some(out) else None
  }

  /** The slot after a fragment that neither finishes it nor costs it. */
  function AfterFragment(r: Reassembler, size: nat, max: nat, index: nat, data: seq<Byte>, now: nat, granted: bool,
                         decodes: seq<Byte> -> bool): Option<Reassembler>
  {
    if r.fragments == [] then None
    else
      var out := OutcomeOf(r.fragments, index, data, decodes);
      if out.Added? && Keeps(r, out, size, max, granted)
      then Some(r.(reserved := out.planned, lastActivity := now, fragments := out.fragments))
      else None
  }

  lemma StepHolds(slots: seq<Reassembler>, k: nat, size: nat, max: nat, index: nat, data: seq<Byte>, now: nat,
                  granted: bool, decodes: seq<Byte> -> bool, after: seq<Reassembler>)
    requires SlotsOk(slots) && SlotsOk(after) && k < |slots| && slots[k].fragments != []
    requires var out := OutcomeOf(slots[k].fragments, index, data, decodes);
             Stepped(slots, k, out, Keeps(slots[k], out, size, max, granted), now, after)
    ensures Others(after, slots[k].id) == Others(slots, slots[k].id)
    ensures HeldFor(after, slots[k].id) == AfterFragment(slots[k], size, max, index, data, now, granted, decodes)
  {
    var held := AfterFragment(slots[k], size, max, index, data, now, granted, decodes);
    if held.Some? {
      OthersUpdate(slots, k, held.value);
      HeldAt(after, k);
    } else {
      OthersWithout(slots, k);
      OthersAll(after, slots[k].id);
    }
  }

  /** A finished message is cached; its id and payload are handed over if it decodes, and nothing else is. */
  ghost predicate Recorded(id: Id, now: nat, out: Option<Outcome>, done: seq<Completed>, done': seq<Completed>,
                           ids: seq<Id>, ids': seq<Id>, payloads: seq<seq<Byte>>, payloads': seq<seq<Byte>>)
  {
    if out.None? || !out.value.Finished? then done' == done && ids' == ids && payloads' == payloads
    else
      && done' == CacheOf(done, Completed(id, now))
      && ids' == ids + (if out.value.decoded then [id] else [])
      && payloads' == payloads + (if out.value.decoded then [Joined(out.value.fragments)] else [])
  }

  // ------------------------------------------------ what was sent

  /** The payload is cut into `total` fragments. */
  ghost predicate Cut(payload: seq<Byte>, mtu: nat, total: nat) {
    mtu > 0 && 1 <= total == Outgoing.CeilDiv(|payload|, mtu) <= MAX_FRAGMENTS_PER_MESSAGE
  }

  /** The packet is one of the fragments that the payload was cut into. */
  ghost predicate IsFragment(data: seq<Byte>, payload: seq<Byte>, mtu: nat, index: nat, total: nat) {
    && Cut(payload, mtu, total)
    && var l := Outgoing.Layout(|payload|, mtu, total);
       l.Ok() && data == Outgoing.Fragment(payload, l, index)
  }

  /** The fragments of a slot are those of the payload. */
  ghost predicate Carrying(r: Reassembler, payload: seq<Byte>, mtu: nat) {
    && |r.fragments| == r.total && Cut(payload, mtu, r.total)
    && var l := Outgoing.Layout(|payload|, mtu, r.total);
       l.Ok() && Carries(r.fragments, payload, l)
  }

  lemma EmptyCarries(id: Id, total: nat, dataLen: nat, now: nat, payload: seq<Byte>, mtu: nat)
    requires Cut(payload, mtu, total)
    ensures Carrying(Reassembler(id, total, InitialReservation(total, dataLen), now, Empty(total)), payload, mtu)
  {
    Outgoing.LayoutOk(|payload|, mtu);
  }

  /** A fragment of the payload keeps the slot carrying it, and what is put together is the payload. */
  lemma OutcomeCarries(r: Reassembler, payload: seq<Byte>, mtu: nat, index: nat, data: seq<Byte>,
                       decodes: seq<Byte> -> bool)
    requires Carrying(r, payload, mtu) && IsFragment(data, payload, mtu, index, r.total)
    ensures var out := OutcomeOf(r.fragments, index, data, decodes);
            && (out.Added? ==> Carrying(r.(fragments := out.fragments), payload, mtu))
            && (out.Finished? ==> Joined(out.fragments) == payload)
  {
    SoundLayout(payload, mtu, r.total);
    AcceptCarries(r.fragments, payload, Outgoing.Layout(|payload|, mtu, r.total), index);
  }

  /** What a fragment does to the slots: its own is given up or finished, or holds the new contents. */
  ghost predicate Stepped(slots: seq<Reassembler>, k: nat, out: Outcome, kept: bool, now: nat, after: seq<Reassembler>)
    requires k < |slots| && (kept ==> out != Rejected)
  {
    if kept && out.Added? then
      after == slots[k := slots[k].(reserved := out.planned, lastActivity := now, fragments := out.fragments)]
    else after == Without(slots, k)
  }

  /** A fragment of what was sent leaves only such fragments, and what it finishes is what was sent. */
  lemma FragmentCarries(r: Reassembler, size: nat, max: nat, payload: seq<Byte>, mtu: nat, index: nat, data: seq<Byte>,
                        now: nat, granted: bool, decodes: seq<Byte> -> bool)
    requires Carrying(r, payload, mtu) && IsFragment(data, payload, mtu, index, r.total)
    ensures var held := AfterFragment(r, size, max, index, data, now, granted, decodes);
            held.Some? ==> Carrying(held.value, payload, mtu)
    ensures var out := FinishOf(r, size, max, index, data, granted, decodes);
            out.Some? ==> out.value.Finished? && Joined(out.value.fragments) == payload
  {
    OutcomeCarries(r, payload, mtu, index, data, decodes);
  }

  /** The slot that takes a fragment carries what was sent, whether it was there or is new. */
  lemma SlotCarries(slots: seq<Reassembler>, id: Id, total: nat, dataLen: nat, now: nat, sent: Id -> seq<Byte>,
                    mtu: nat)
    requires AllCarry(slots, sent, mtu) && Cut(sent(id), mtu, total)
    ensures HeldFor(slots, id).Some? ==> Carrying(HeldFor(slots, id).value, sent(id), mtu)
    ensures Carrying(Reassembler(id, total, InitialReservation(total, dataLen), now, Empty(total)), sent(id), mtu)
  {
    EmptyCarries(id, total, dataLen, now, sent(id), mtu);
  }

  lemma {:induction false} OthersMember(slots: seq<Reassembler>, id: Id, r: Reassembler)
    ensures r in Others(slots, id) <==> r in slots && r.id != id
  {
    if slots != [] {
      OthersMember(slots[..|slots| - 1], id, r);
      assert slots == slots[..|slots| - 1] + [slots[|slots| - 1]];
    }
  }

  lemma CarryFrom(slots: seq<Reassembler>, after: seq<Reassembler>, id: Id, sent: Id -> seq<Byte>, mtu: nat)
    requires AllCarry(slots, sent, mtu) && SlotsOk(after) && Others(after, id) == Others(slots, id)
    requires HeldFor(after, id).Some? ==> Carrying(HeldFor(after, id).value, sent(id), mtu)
    ensures AllCarry(after, sent, mtu)
  {
    forall i | 0 <= i < |after| ensures Carrying(after[i], sent(after[i].id), mtu) {
      if after[i].id == id {
        HeldAt(after, i);
      } else {
        OthersMember(after, id, after[i]);
        OthersMember(slots, id, after[i]);
        assert after[i] in slots;
      }
    }
  }

  /** The payloads handed over are those that were sent. */
  ghost predicate AsSent(ids: seq<Id>, payloads: seq<seq<Byte>>, sent: Id -> seq<Byte>) {
    |ids| == |payloads| && forall i | 0 <= i < |ids| :: payloads[i] == sent(ids[i])
  }

  ghost predicate AllCarry(slots: seq<Reassembler>, sent: Id -> seq<Byte>, mtu: nat) {
    forall i | 0 <= i < |slots| :: Carrying(slots[i], sent(slots[i].id), mtu)
  }

  function CacheOf(done: seq<Completed>, c: Completed): seq<Completed> {
    if |done| < MAX_COMPLETED_INCOMING then done + [c] else done[1..] + [c]
  }

  predicate Expired(c: Completed, now: nat) { now >= c.at && now - c.at >= COMPLETED_TIMEOUT }

  function KeepRecent(done: seq<Completed>, now: nat): (r: seq<Completed>)
    ensures |r| <= |done|
  {
    if done == [] then []
    else
      var n := |done| - 1;
      KeepRecent(done[..n], now) + if Expired(done[n], now) then [] else [done[n]]
  }

  lemma {:induction false} RecentMember(done: seq<Completed>, now: nat, c: Completed)
    ensures c in KeepRecent(done, now) <==> c in done && !Expired(c, now)
  {
    if done != [] {
      var n := |done| - 1;
      RecentMember(done[..n], now, c);
      assert done == done[..n] + [done[n]];
    }
  }

  ghost predicate SafeOf(highest: Option<Id>, done: seq<Completed>, out: seq<Id>, now: nat) {
    forall k | 0 <= k < |done| :: !UnsafeAt(highest, done, out, now, k)
  }

  /** An entry that expires although its id was delivered and is within the lookback. */
  predicate UnsafeAt(highest: Option<Id>, done: seq<Completed>, out: seq<Id>, now: nat, k: nat)
    requires k < |done|
  {
    && Expired(done[k], now) && done[k].id in out
    && !(highest.Some? && WrappingSub(highest.value, done[k].id) > LOOKBACK)
  }

  // ------------------------------------------------ serial-number arithmetic

  function Pos(origin: Id, id: Id): nat { WrappingSub(id, origin) }

  lemma ModSmall(a: int)
    requires a + ID_SPACE > 0 && a < ID_SPACE
    ensures a % ID_SPACE == if a >= 0 then a else a + ID_SPACE
  {
  }

  /** Within half the space, the wrap-around comparison is the order of positions. */
  lemma Serial(origin: Id, x: Id, h: Id)
    requires Pos(origin, x) < HALF && Pos(origin, h) < HALF
    ensures WrappingSub(x, h) > HALF <==> Pos(origin, x) < Pos(origin, h)
    ensures WrappingSub(x, h) < HALF <==> Pos(origin, x) >= Pos(origin, h)
    ensures WrappingSub(x, h) == 0 <==> x == h
    ensures Pos(origin, x) <= Pos(origin, h) ==> WrappingSub(h, x) == Pos(origin, h) - Pos(origin, x)
  {
    ModSmall(x - origin);
    ModSmall(h - origin);
    ModSmall(x - h);
    ModSmall(h - x);
  }

  lemma PosInjective(origin: Id, x: Id, y: Id)
    ensures Pos(origin, x) == Pos(origin, y) <==> x == y
  {
    ModSmall(x - origin);
    ModSmall(y - origin);
  }

  ghost function SlotPositions(origin: Id, slots: seq<Reassembler>): seq<nat> {
    seq(|slots|, i requires 0 <= i < |slots| => Pos(origin, slots[i].id))
  }

  ghost function DonePositions(origin: Id, done: seq<Completed>): seq<nat> {
    seq(|done|, i requires 0 <= i < |done| => Pos(origin, done[i].id))
  }

  ghost function Positions(origin: Id, ids: seq<Id>): seq<nat> {
    seq(|ids|, i requires 0 <= i < |ids| => Pos(origin, ids[i]))
  }

  lemma SameSlots(origin: Id, before: seq<Reassembler>, after: seq<Reassembler>)
    requires |before| == |after| && forall i | 0 <= i < |before| :: before[i].id == after[i].id
    ensures SlotPositions(origin, before) == SlotPositions(origin, after)
  {
  }

  lemma SlotsWithout(origin: Id, slots: seq<Reassembler>, k: nat)
    requires k < |slots|
    ensures SlotPositions(origin, Without(slots, k)) == Without(SlotPositions(origin, slots), k)
  {
  }

  lemma DoneCache(origin: Id, done: seq<Completed>, c: Completed)
    ensures DonePositions(origin, CacheOf(done, c)) == Delivery.Cache(DonePositions(origin, done), Pos(origin, c.id))
  {
  }

  lemma OutPush(origin: Id, out: seq<Id>, id: Id)
    ensures Positions(origin, out + [id]) == Positions(origin, out) + [Pos(origin, id)]
  {
  }

  /** A session as positions counted from `origin`. */
  ghost function ViewOf(origin: Id, highest: Option<Id>, slots: seq<Reassembler>, done: seq<Completed>, out: seq<Id>)
    : Delivery.Picture
  {
    Delivery.Picture(if highest.None? then None else Some(Pos(origin, highest.value)),
                     SlotPositions(origin, slots), DonePositions(origin, done), Positions(origin, out))
  }

  ghost predicate OnceOf(origin: Id, highest: Option<Id>, slots: seq<Reassembler>, done: seq<Completed>, out: seq<Id>) {
    && Delivery.Once(ViewOf(origin, highest, slots, done, out))
    && (highest.Some? ==> Pos(origin, highest.value) < HALF)
  }

  /** What the invariant is for: the delivered ids are pairwise different. */
  lemma OnceMeansNoDuplicate(origin: Id, highest: Option<Id>, slots: seq<Reassembler>, done: seq<Completed>,
                             out: seq<Id>, i: nat, j: nat)
    requires OnceOf(origin, highest, slots, done, out) && i < j < |out|
    ensures out[i] != out[j]
  {
    var p := Positions(origin, out);
    assert p[i] != p[j];
  }

  lemma DropSlot(origin: Id, highest: Option<Id>, slots: seq<Reassembler>, k: nat, done: seq<Completed>, out: seq<Id>)
    requires k < |slots| && OnceOf(origin, highest, slots, done, out)
    ensures OnceOf(origin, highest, Without(slots, k), done, out)
  {
    var p := ViewOf(origin, highest, slots, done, out);
    Delivery.DropKeeps(p, k);
    SlotsWithout(origin, slots, k);
  }

  lemma DropForAll(highest: Option<Id>, slots: seq<Reassembler>, k: nat, done: seq<Completed>, out: seq<Id>)
    requires k < |slots|
    ensures forall origin | OnceOf(origin, highest, slots, done, out) ::
              OnceOf(origin, highest, Without(slots, k), done, out)
  {
    forall origin | OnceOf(origin, highest, slots, done, out)
      ensures OnceOf(origin, highest, Without(slots, k), done, out)
    {
      DropSlot(origin, highest, slots, k, done, out);
    }
  }

  lemma SameForAll(highest: Option<Id>, before: seq<Reassembler>, after: seq<Reassembler>, done: seq<Completed>,
                   out: seq<Id>)
    requires |before| == |after| && forall i | 0 <= i < |before| :: before[i].id == after[i].id
    ensures forall origin | OnceOf(origin, highest, before, done, out) :: OnceOf(origin, highest, after, done, out)
  {
    forall origin | OnceOf(origin, highest, before, done, out) ensures OnceOf(origin, highest, after, done, out) {
      SameSlots(origin, before, after);
    }
  }

  // ------------------------------------------------ forgetting completed ids

  lemma {:induction false} RecentPositions(origin: Id, done: seq<Completed>, now: nat)
    ensures Delivery.Sub(DonePositions(origin, KeepRecent(done, now)), DonePositions(origin, done))
  {
    if done != [] {
      var n := |done| - 1;
      RecentPositions(origin, done[..n], now);
      var a, b := DonePositions(origin, KeepRecent(done[..n], now)), DonePositions(origin, done[..n]);
      var x := Pos(origin, done[n].id);
      Delivery.SubPush(a, b, x);
      assert DonePositions(origin, done) == b + [x];
      if Expired(done[n], now) {
        assert KeepRecent(done, now) == KeepRecent(done[..n], now);
      } else {
        assert DonePositions(origin, KeepRecent(done, now)) == a + [x];
      }
    }
  }

  lemma PositionIn(origin: Id, ids: seq<Id>, id: Id)
    ensures Pos(origin, id) in Positions(origin, ids) <==> id in ids
  {
    var p := Positions(origin, ids);
    if id in ids { var i :| 0 <= i < |ids| && ids[i] == id; assert p[i] == Pos(origin, id); }
    if Pos(origin, id) in p {
      var i :| 0 <= i < |p| && p[i] == Pos(origin, id);
      PosInjective(origin, ids[i], id);
    }
  }

  /** With distinct cached positions, a position leaves the cache exactly with its expired entry. */
  lemma ForgottenIsExpired(origin: Id, done: seq<Completed>, now: nat, k: nat)
    requires k < |done| && Distinct(DonePositions(origin, done))
    ensures Pos(origin, done[k].id) !in DonePositions(origin, KeepRecent(done, now)) <==> Expired(done[k], now)
  {
    var r, p, x := KeepRecent(done, now), DonePositions(origin, done), Pos(origin, done[k].id);
    var q := DonePositions(origin, r);
    assert p[k] == x && done[k] in done;
    if x in q {
      var i :| 0 <= i < |q| && q[i] == x;
      RecentMember(done, now, r[i]);
      var j :| 0 <= j < |done| && done[j] == r[i];
      assert p[j] == x;
    }
    RecentMember(done, now, done[k]);
    if done[k] in r {
      var i :| 0 <= i < |r| && r[i] == done[k];
      assert q[i] == x;
    }
  }

  lemma FarBehind(origin: Id, x: Id, h: Id)
    requires Pos(origin, h) < HALF && Pos(origin, x) <= Pos(origin, h)
    ensures Pos(origin, x) + LOOKBACK < Pos(origin, h) <==> WrappingSub(h, x) > LOOKBACK
  {
    Serial(origin, x, h);
  }

  /** The condition on ids is the condition on positions. */
  lemma SafeIsHarmless(origin: Id, highest: Option<Id>, slots: seq<Reassembler>, done: seq<Completed>, out: seq<Id>,
                       now: nat)
    requires OnceOf(origin, highest, slots, done, out)
    ensures SafeOf(highest, done, out, now) <==>
            Delivery.Harmless(ViewOf(origin, highest, slots, done, out), DonePositions(origin, KeepRecent(done, now)))
  {
    var p, kept := ViewOf(origin, highest, slots, done, out), DonePositions(origin, KeepRecent(done, now));
    if Delivery.Harmless(p, kept) {
      forall k | 0 <= k < |done| && Expired(done[k], now) && done[k].id in out
        ensures !UnsafeAt(highest, done, out, now, k)
      {
        PositionIn(origin, out, done[k].id);
        ForgottenIsExpired(origin, done, now, k);
        assert p.done[k] == Pos(origin, done[k].id);
        var i :| 0 <= i < |p.out| && p.out[i] == p.done[k];
        FarBehind(origin, done[k].id, highest.value);
      }
    }
    if SafeOf(highest, done, out, now) {
      forall i | 0 <= i < |p.out| && p.out[i] in p.done && p.out[i] !in kept
        ensures p.top.Some? && p.out[i] + LOOKBACK < p.top.value
      {
        var k :| 0 <= k < |p.done| && p.done[k] == p.out[i];
        PosInjective(origin, done[k].id, out[i]);
        ForgottenIsExpired(origin, done, now, k);
        assert !UnsafeAt(highest, done, out, now, k);
        FarBehind(origin, done[k].id, highest.value);
      }
    }
  }

  lemma ForgetForAll(highest: Option<Id>, slots: seq<Reassembler>, done: seq<Completed>, out: seq<Id>, now: nat)
    ensures forall origin | OnceOf(origin, highest, slots, done, out) ::
              OnceOf(origin, highest, slots, KeepRecent(done, now), out) <==> SafeOf(highest, done, out, now)
  {
    forall origin | OnceOf(origin, highest, slots, done, out)
      ensures OnceOf(origin, highest, slots, KeepRecent(done, now), out) <==> SafeOf(highest, done, out, now)
    {
      RecentPositions(origin, done, now);
      Delivery.ForgetKeeps(ViewOf(origin, highest, slots, done, out), DonePositions(origin, KeepRecent(done, now)));
      SafeIsHarmless(origin, highest, slots, done, out, now);
    }
  }

  lemma FinishForAll(highest: Option<Id>, slots: seq<Reassembler>, k: nat, done: seq<Completed>, out: seq<Id>, now: nat,
                     deliver: bool)
    requires k < |slots|
    ensures forall origin | OnceOf(origin, highest, slots, done, out) ::
              OnceOf(origin, highest, Without(slots, k), CacheOf(done, Completed(slots[k].id, now)),
                     if deliver then out + [slots[k].id] else out)
  {
    var out' := if deliver then out + [slots[k].id] else out;
    forall origin | OnceOf(origin, highest, slots, done, out)
      ensures OnceOf(origin, highest, Without(slots, k), CacheOf(done, Completed(slots[k].id, now)), out')
    {
      FinishSlot(origin, highest, slots, k, done, out, now, deliver);
    }
  }

  lemma FinishSlot(origin: Id, highest: Option<Id>, slots: seq<Reassembler>, k: nat, done: seq<Completed>, out: seq<Id>,
                   now: nat, deliver: bool)
    requires k < |slots| && OnceOf(origin, highest, slots, done, out)
    ensures OnceOf(origin, highest, Without(slots, k), CacheOf(done, Completed(slots[k].id, now)),
                   if deliver then out + [slots[k].id] else out)
  {
    var p := ViewOf(origin, highest, slots, done, out);
    var c := Completed(slots[k].id, now);
    Delivery.FinishKeeps(p, k, deliver);
    SlotsWithout(origin, slots, k);
    DoneCache(origin, done, c);
    OutPush(origin, out, c.id);
  }

  ghost predicate Fresh(id: Id, slots: seq<Reassembler>, done: seq<Completed>) {
    && (forall i | 0 <= i < |slots| :: slots[i].id != id)
    && (forall i | 0 <= i < |done| :: done[i].id != id)
  }

  /** Recent enough to be opened when there is nothing of it. */
  predicate Recent(id: Id, highest: Option<Id>) {
    highest.Some? ==>
      var diff := WrappingSub(id, highest.value);
      diff != 0 && (diff > HALF ==> WrappingSub(highest.value, id) <= LOOKBACK)
  }

  /** An id that passes the ancient test while neither in reassembly nor cached is safe to open. */
  lemma AdmitKeeps(origin: Id, r: Reassembler, highest: Option<Id>, slots: seq<Reassembler>, done: seq<Completed>,
                   out: seq<Id>)
    requires OnceOf(origin, highest, slots, done, out) && Pos(origin, r.id) < HALF
    requires |slots| < MAX_CONCURRENT_INCOMING && Fresh(r.id, slots, done)
    requires Recent(r.id, highest)
    ensures OnceOf(origin, NewHighest(highest, r.id), slots + [r], done, out)
  {
    var p, z := ViewOf(origin, highest, slots, done, out), Pos(origin, r.id);
    if highest.Some? { Serial(origin, r.id, highest.value); }
    forall i | 0 <= i < |slots| ensures p.inc[i] != z { PosInjective(origin, slots[i].id, r.id); }
    forall i | 0 <= i < |done| ensures p.done[i] != z { PosInjective(origin, done[i].id, r.id); }
    Delivery.OpenKeeps(p, z);
    assert SlotPositions(origin, slots + [r]) == p.inc + [z];
  }

  lemma AdmitForAll(r: Reassembler, highest: Option<Id>, slots: seq<Reassembler>, done: seq<Completed>, out: seq<Id>)
    requires |slots| < MAX_CONCURRENT_INCOMING && Fresh(r.id, slots, done)
    requires Recent(r.id, highest)
    ensures forall origin | OnceOf(origin, highest, slots, done, out) && Pos(origin, r.id) < HALF ::
              OnceOf(origin, NewHighest(highest, r.id), slots + [r], done, out)
  {
    forall origin | OnceOf(origin, highest, slots, done, out) && Pos(origin, r.id) < HALF
      ensures OnceOf(origin, NewHighest(highest, r.id), slots + [r], done, out)
    {
      AdmitKeeps(origin, r, highest, slots, done, out);
    }
  }

  lemma PushApart(slots: seq<Reassembler>, r: Reassembler)
    ensures Without(slots + [r], |slots|) == slots && Others(slots + [r], r.id) == Others(slots, r.id)
  {
    PushThenWithout(slots, r);
    OthersPush(slots, r);
  }

  // ------------------------------------------------ the fragments of one message

  /** Memory for a message of `count` fragments however its fragments come in. */
  function Room(count: nat, mtu: nat): nat {
    count * ((if mtu >= ESTIMATED_PAYLOAD_SIZE then mtu else ESTIMATED_PAYLOAD_SIZE) + PER_FRAGMENT_OVERHEAD)
  }

  /** The slot holds exactly the fragments of the payload whose indices are in `got`. */
  ghost predicate Gathers(r: Reassembler, id: Id, payload: seq<Byte>, l: Outgoing.Layout, got: set<nat>) {
    && l.Ok() && l.size == |payload| && r.id == id && r.total == l.count == |r.fragments| >= 1
    && Carries(r.fragments, payload, l) && Arrived(r.fragments) == got
  }

  lemma PlanFits(f: Fragments, payload: seq<Byte>, l: Outgoing.Layout)
    requires l.Ok() && l.size == |payload| && |f| == l.count >= 1 && Carries(f, payload, l)
    ensures Planned(f) <= Room(l.count, l.mtu)
  {
    PlannedBound(f, if l.mtu >= ESTIMATED_PAYLOAD_SIZE then l.mtu else ESTIMATED_PAYLOAD_SIZE);
  }

  /** A new slot is empty and takes no more than that room. */
  lemma NewGathers(id: Id, payload: seq<Byte>, l: Outgoing.Layout, dataLen: nat, now: nat)
    requires l.Ok() && l.size == |payload| && l.count >= 1 && dataLen <= l.mtu
    ensures var r := Reassembler(id, l.count, InitialReservation(l.count, dataLen), now, Empty(l.count));
            Gathers(r, id, payload, l, {}) && r.reserved <= Room(l.count, l.mtu)
  {
    var m := if l.mtu >= ESTIMATED_PAYLOAD_SIZE then l.mtu else ESTIMATED_PAYLOAD_SIZE;
    var d := if dataLen > ESTIMATED_PAYLOAD_SIZE then dataLen else ESTIMATED_PAYLOAD_SIZE;
    RoomFits(l.count, d, m);
    assert Arrived(Empty(l.count)) == {};
  }

  lemma RoomFits(n: nat, d: nat, m: nat)
    requires n >= 1 && d <= m
    ensures d * n <= n * (m + PER_FRAGMENT_OVERHEAD) && d <= n * (m + PER_FRAGMENT_OVERHEAD)
  {
    assert n * (m + PER_FRAGMENT_OVERHEAD) == n * m + n * PER_FRAGMENT_OVERHEAD;
    assert n * d <= n * m && 1 * d <= n * d;
  }

  /** With memory granted, a fragment of the payload is refused, completes it or is one more. */
  lemma FragmentStep(r: Reassembler, id: Id, payload: seq<Byte>, l: Outgoing.Layout, got: set<nat>, i: nat, base: nat,
                     max: nat, now: nat, decodes: seq<Byte> -> bool)
    requires Gathers(r, id, payload, l, got) && Outgoing.Concat(payload, l, l.count) == payload
    requires base + Room(l.count, l.mtu) <= max
    ensures var data := Outgoing.Fragment(payload, l, i);
            var held := AfterFragment(r, base + r.reserved, max, i, data, now, true, decodes);
            var out := FinishOf(r, base + r.reserved, max, i, data, true, decodes);
            if l.Bytes(got) + l.Len(i) > MAX_MESSAGE_SIZE || i >= l.count then held == None && out == None
            else if All(l, got + {i}) then
              && held == None && out.Some? && out.value.Finished?
              && Joined(out.value.fragments) == payload && out.value.decoded == decodes(payload)
            else
              out == None && held.Some? && Gathers(held.value, id, payload, l, got + {i})
  {
    var answer := Accept(r.fragments, i, Outgoing.Fragment(payload, l, i));
    AcceptMeans(r.fragments, payload, l, i);
    AcceptCarries(r.fragments, payload, l, i);
    if answer.Held? { PlanFits(answer.fragments, payload, l); }
  }

  /** How far a message has come: some indices are there, or it is delivered or lost for good. */
  datatype Phase = Taking(got: set<nat>) | Over(done: bool)

  ghost function PhaseAfter(l: Outgoing.Layout, phase: Phase, i: nat, again: bool): Phase
    requires l.Ok()
  {
    if phase.Over? then phase
    else if l.Bytes(phase.got) + l.Len(i) > MAX_MESSAGE_SIZE || i >= l.count then
      if again then Taking({}) else Over(false)
    else if All(l, phase.got + {i}) then Over(true)
    else Taking(phase.got + {i})
  }

  /** What becomes of it with the arrivals to come. */
  ghost function FateFrom(l: Outgoing.Layout, phase: Phase, arrivals: seq<nat>, again: bool): Fate
    requires l.Ok()
  {
    match phase
    case Taking(got) => SessionFate(l, got, arrivals, again)
    case Over(done) => if done then Done else Lost
  }

  lemma FateStepped(l: Outgoing.Layout, phase: Phase, arrivals: seq<nat>, k: nat, again: bool)
    requires l.Ok() && k < |arrivals|
    ensures FateFrom(l, phase, arrivals[k..], again)
            == FateFrom(l, PhaseAfter(l, phase, arrivals[k], again), arrivals[k + 1..], again)
  {
    assert arrivals[k..][0] == arrivals[k] && arrivals[k..][1..] == arrivals[k + 1..];
  }

  /** A run about one id: what the other slots hold and what the highest id was at its start. */
  datatype Setting = Setting(id: Id, payload: seq<Byte>, l: Outgoing.Layout, others: seq<Reassembler>, top: Option<Id>)
  {
    /** The fragments are the payload, and there is a slot. */
    ghost predicate Ok() {
      && l.Ok() && l.size == |payload| && l.count >= 1 && Outgoing.Concat(payload, l, l.count) == payload
      && |others| < MAX_CONCURRENT_INCOMING
    }

    /** Older than the highest id, so that a lost message can be opened again. */
    predicate Again() { NewHighest(top, id) != Some(id) }
  }

  /** The session stands where the phase says. */
  ghost predicate Stands(s: Session, c: Setting, phase: Phase)
    reads s
  {
    && s.Valid() && c.Ok() && Reserved(c.others) + Room(c.l.count, c.l.mtu) <= s.maxPerSession
    && Others(s.incoming, c.id) == c.others && Recent(c.id, c.top)
    && At(c, phase, HeldFor(s.incoming, c.id), s.highest, s.InCompleted(c.id))
  }

  ghost predicate At(c: Setting, phase: Phase, held: Option<Reassembler>, highest: Option<Id>, cached: bool) {
    match phase
    case Taking(got) =>
      && !cached
      && (if held.Some? then highest == NewHighest(c.top, c.id) && Gathers(held.value, c.id, c.payload, c.l, got)
          else highest == c.top && got == {})
    case Over(done) => held == None && (if done then cached else highest == Some(c.id) && !cached)
  }

  lemma PhaseStep(c: Setting, phase: Phase, i: nat, held: Option<Reassembler>, highest: Option<Id>, cached: bool,
                  after: Option<Reassembler>, finished: bool)
    requires c.Ok() && phase.Taking? && At(c, phase, held, highest, cached)
    requires var got, l := phase.got, c.l;
             if l.Bytes(got) + l.Len(i) > MAX_MESSAGE_SIZE || i >= l.count then after == None && !finished
             else if All(l, got + {i}) then after == None && finished
             else !finished && after.Some? && Gathers(after.value, c.id, c.payload, l, got + {i})
    ensures At(c, PhaseAfter(c.l, phase, i, c.Again()), after,
               if held.Some? then highest else NewHighest(highest, c.id), finished)
  {
  }

  lemma CachedIn(done: seq<Completed>, id: Id, now: nat)
    ensures exists k | 0 <= k < |CacheOf(done, Completed(id, now))| :: CacheOf(done, Completed(id, now))[k].id == id
  {
    var after := CacheOf(done, Completed(id, now));
    assert after[|after| - 1].id == id;
  }

  /** Which slot takes the next fragment, and what the buffer holds besides. */
  lemma SlotStands(s: Session, c: Setting, phase: Phase, dataLen: nat, now: nat)
    requires Stands(s, c, phase) && dataLen <= c.l.mtu
    ensures var slot := s.SlotFor(c.id, c.l.count, dataLen, now, true);
            && (phase.Over? ==> slot == None)
            && (phase.Taking? ==>
                && slot.Some? && Gathers(slot.value, c.id, c.payload, c.l, phase.got)
                && s.SizeWith(c.id, c.l.count, dataLen) == Reserved(c.others) + slot.value.reserved)
    ensures s.InIncoming(c.id) <==> HeldFor(s.incoming, c.id).Some?
  {
    OthersSum(s.incoming, c.id);
    NewGathers(c.id, c.payload, c.l, dataLen, now);
  }

  /** What a fragment of the payload will leave in its slot, and what it will finish. */
  lemma FragmentStands(s: Session, c: Setting, phase: Phase, i: nat, data: seq<Byte>, now: nat,
                       decodes: seq<Byte> -> bool)
    requires Stands(s, c, phase) && data == Outgoing.Fragment(c.payload, c.l, i)
    ensures var next := PhaseAfter(c.l, phase, i, c.Again());
            var out := s.Finishes(c.id, i, c.l.count, data, now, true, true, decodes);
            var opens := !s.InIncoming(c.id) && s.SlotFor(c.id, c.l.count, |data|, now, true).Some?;
            && (out.Some? <==> phase.Taking? && next == Over(true))
            && (out.Some? ==> out.value.Finished? && Joined(out.value.fragments) == c.payload
                              && out.value.decoded == decodes(c.payload))
            && At(c, next, s.Holds(c.id, i, c.l.count, data, now, true, true, decodes),
                  if opens then NewHighest(s.highest, c.id) else s.highest, out.Some? || s.InCompleted(c.id))
  {
    SlotStands(s, c, phase, |data|, now);
    var slot := s.SlotFor(c.id, c.l.count, |data|, now, true);
    if slot.Some? {
      FragmentStep(slot.value, c.id, c.payload, c.l, phase.got, i, Reserved(c.others), s.maxPerSession, now, decodes);
      PhaseStep(c, phase, i, HeldFor(s.incoming, c.id), s.highest, s.InCompleted(c.id),
                s.Holds(c.id, i, c.l.count, data, now, true, true, decodes),
                s.Finishes(c.id, i, c.l.count, data, now, true, true, decodes).Some?);
    }
  }

  /** One fragment of the payload, with memory granted. */
  method TakeFragment(s: Session, ghost c: Setting, ghost phase: Phase, id: Id, i: nat, total: nat, data: seq<Byte>,
                      now: nat, decodes: seq<Byte> -> bool) returns (ghost next: Phase)
    requires Stands(s, c, phase) && id == c.id && total == c.l.count && data == Outgoing.Fragment(c.payload, c.l, i)
    modifies s
    ensures next == PhaseAfter(c.l, phase, i, c.Again()) && Stands(s, c, next)
    ensures var deliver := phase.Taking? && next == Over(true) && decodes(c.payload);
            && s.delivered == old(s.delivered) + (if deliver then [id] else [])
            && s.payloads == old(s.payloads) + (if deliver then [c.payload] else [])
  {
    next := PhaseAfter(c.l, phase, i, c.Again());
    FragmentStands(s, c, phase, i, data, now, decodes);
    CachedIn(s.completed, id, now);
    s.Receive(id, i, total, data, now, true, true, decodes);
  }

  lemma StartStands(s: Session, c: Setting)
    requires s.Valid() && c.Ok() && Fresh(c.id, s.incoming, s.completed) && Recent(c.id, s.highest)
    requires c.others == s.incoming && c.top == s.highest
    requires s.incomingBufferSize + Room(c.l.count, c.l.mtu) <= s.maxPerSession
    ensures Stands(s, c, Taking({}))
  {
    OthersAll(s.incoming, c.id);
  }

  /**
   A run of fragments of one payload, in any order and number, with memory granted: the session delivers
   the payload, once, exactly when the run completes it and it decodes.
   */
  method ReceiveAll(s: Session, id: Id, payload: seq<Byte>, mtu: nat, arrivals: seq<nat>, times: seq<nat>,
                    decodes: seq<Byte> -> bool)
    requires s.Valid() && Fresh(id, s.incoming, s.completed) && Recent(id, s.highest)
    requires |s.incoming| < MAX_CONCURRENT_INCOMING && |times| == |arrivals|
    requires mtu > 0 && 1 <= Outgoing.CeilDiv(|payload|, mtu) <= MAX_FRAGMENTS_PER_MESSAGE
    requires s.incomingBufferSize + Room(Outgoing.CeilDiv(|payload|, mtu), mtu) <= s.maxPerSession
    modifies s
    ensures s.Valid()
    ensures var l := Outgoing.Layout(|payload|, mtu, Outgoing.CeilDiv(|payload|, mtu));
            var again := NewHighest(old(s.highest), id) != Some(id);
            && l.Ok()
            && var deliver := SessionFate(l, {}, arrivals, again) == Done && decodes(payload);
               && s.delivered == old(s.delivered) + (if deliver then [id] else [])
               && s.payloads == old(s.payloads) + (if deliver then [payload] else [])
  {
    var total := Outgoing.CeilDiv(|payload|, mtu);
    var l := Outgoing.Layout(|payload|, mtu, total);
    SoundLayout(payload, mtu, total);
    ghost var c := Setting(id, payload, l, s.incoming, s.highest);
    ghost var phase := Taking({});
    StartStands(s, c);
    assert arrivals[0..] == arrivals;
    for k := 0 to |arrivals|
      invariant Stands(s, c, phase)
      invariant FateFrom(l, phase, arrivals[k..], c.Again()) == SessionFate(l, {}, arrivals, c.Again())
      invariant var deliver := phase == Over(true) && decodes(payload);
                && s.delivered == old(s.delivered) + (if deliver then [id] else [])
                && s.payloads == old(s.payloads) + (if deliver then [payload] else [])
    {
      FateStepped(l, phase, arrivals, k, c.Again());
      phase := TakeFragment(s, c, phase, id, arrivals[k], total, Outgoing.Fragment(payload, l, arrivals[k]), times[k],
                            decodes);
    }
  }

  /** So every fragment arriving, however often, delivers a reliable message. */
  method ReceiveReliable(s: Session, id: Id, payload: seq<Byte>, mtu: nat, arrivals: seq<nat>, times: seq<nat>,
                         decodes: seq<Byte> -> bool)
    requires s.Valid() && Fresh(id, s.incoming, s.completed) && Recent(id, s.highest)
    requires |s.incoming| < MAX_CONCURRENT_INCOMING && |times| == |arrivals|
    requires mtu > 0 && 1 <= Outgoing.CeilDiv(|payload|, mtu) <= MAX_FRAGMENTS_PER_MESSAGE
    requires s.incomingBufferSize + Room(Outgoing.CeilDiv(|payload|, mtu), mtu) <= s.maxPerSession
    requires var l := Outgoing.Layout(|payload|, mtu, Outgoing.CeilDiv(|payload|, mtu));
             Reliable(l) && Covers(l, arrivals) && decodes(payload)
    modifies s
    ensures s.delivered == old(s.delivered) + [id] && s.payloads == old(s.payloads) + [payload]
  {
    ghost var l := Outgoing.Layout(|payload|, mtu, Outgoing.CeilDiv(|payload|, mtu));
    SoundLayout(payload, mtu, l.count);
    LosslessReaches(payload, l);
    ArrivesWhole(l);
    SessionCompletes(l, {}, arrivals, NewHighest(s.highest, id) != Some(id));
    ReceiveAll(s, id, payload, mtu, arrivals, times, decodes);
  }

  // ------------------------------------------------ what goes wrong otherwise

  lemma {:induction false} KeptSlots(slots: seq<Reassembler>, now: nat)
    ensures |KeepActive(slots, now)| <= |slots|
    ensures forall r | r in KeepActive(slots, now) :: r in slots
  {
    if slots != [] {
      KeptSlots(slots[..|slots| - 1], now);
      assert slots == slots[..|slots| - 1] + [slots[|slots| - 1]];
    }
  }

  lemma KeptCarry(slots: seq<Reassembler>, now: nat)
    ensures forall sent, mtu | AllCarry(slots, sent, mtu) :: AllCarry(KeepActive(slots, now), sent, mtu)
  {
    var kept := KeepActive(slots, now);
    KeptSlots(slots, now);
    forall sent, mtu | AllCarry(slots, sent, mtu) ensures AllCarry(kept, sent, mtu) {
      forall i | 0 <= i < |kept| ensures Carrying(kept[i], sent(kept[i].id), mtu) { assert kept[i] in slots; }
    }
  }

  /** An id that expires after it was delivered is neither cached any more nor in reassembly. */
  lemma ExpiredIsGone(origin: Id, highest: Option<Id>, slots: seq<Reassembler>, done: seq<Completed>, out: seq<Id>,
                      now: nat, k: nat)
    requires OnceOf(origin, highest, slots, done, out) && k < |done| && Expired(done[k], now) && done[k].id in out
    ensures highest.Some? && Pos(origin, done[k].id) <= Pos(origin, highest.value) < HALF
    ensures Fresh(done[k].id, slots, KeepRecent(done, now))
  {
    var p, id, kept := ViewOf(origin, highest, slots, done, out), done[k].id, KeepRecent(done, now);
    assert p.done[k] == Pos(origin, id) && p.top.Some?;
    PositionIn(origin, out, id);
    forall i | 0 <= i < |slots| ensures slots[i].id != id { assert p.inc[i] == Pos(origin, slots[i].id); }
    ForgottenIsExpired(origin, done, now, k);
    forall i | 0 <= i < |kept| ensures kept[i].id != id {
      assert DonePositions(origin, kept)[i] == Pos(origin, kept[i].id);
    }
  }

  function Succ(id: Id): Id { (id + 1) % ID_SPACE }

  /** The id after the highest is new. */
  lemma NextIsNew(origin: Id, h: Id, slots: seq<Reassembler>, done: seq<Completed>, out: seq<Id>)
    requires OnceOf(origin, Some(h), slots, done, out)
    ensures Fresh(Succ(h), slots, done)
  {
    var p := ViewOf(origin, Some(h), slots, done, out);
    ModSmall(h - origin);
    ModSmall(Succ(h) - origin);
    assert Pos(origin, Succ(h)) == Pos(origin, h) + 1;
    forall i | 0 <= i < |slots| ensures slots[i].id != Succ(h) { assert p.inc[i] == Pos(origin, slots[i].id); }
    forall i | 0 <= i < |done| ensures done[i].id != Succ(h) { assert p.done[i] == Pos(origin, done[i].id); }
  }

  lemma SuccFacts(h: Id)
    ensures Succ(h) != h && WrappingSub(Succ(h), h) == 1
    ensures WrappingSub(h, Succ(h)) == ID_SPACE - 1
  {
    ModSmall(Succ(h) - h);
    ModSmall(h - Succ(h));
  }

  lemma FreshRecent(id: Id, slots: seq<Reassembler>, done: seq<Completed>, now: nat)
    requires Fresh(id, slots, done)
    ensures Fresh(id, KeepActive(slots, now), done) && Fresh(id, slots, KeepRecent(done, now))
  {
    var kept, active := KeepRecent(done, now), KeepActive(slots, now);
    forall i | 0 <= i < |kept| ensures kept[i].id != id { RecentMember(done, now, kept[i]); }
    KeptSlots(slots, now);
    forall i | 0 <= i < |active| ensures active[i].id != id { assert active[i] in slots; }
  }

  /** A packet that is a whole message is planned with the overhead of its one fragment. */
  lemma WholePacket(data: seq<Byte>, decodes: seq<Byte> -> bool)
    requires |data| <= MAX_MESSAGE_SIZE
    ensures OutcomeOf(Empty(1), 0, data, decodes)
      == Finished(|data| + PER_FRAGMENT_OVERHEAD, [Some(data)], decodes(data))
  {
    var g := [Some(data)];
    assert Empty(1)[0 := Some(data)] == g && g[..0] == [] && Empty(1)[..0] == [];
    assert Stored(Empty(1)) == 0 && Stored(g) == |data| && Present(g) == 1 && Joined(g) == [] + data;
    assert [] + data == data;
  }

  method DeliverWhole(s: Session, id: Id, data: seq<Byte>, now: nat)
    requires s.Valid() && Fresh(id, s.incoming, s.completed) && !s.IsAncient(id)
    requires |s.incoming| < MAX_CONCURRENT_INCOMING && |data| <= MAX_MESSAGE_SIZE
    requires s.incomingBufferSize + |data| + PER_FRAGMENT_OVERHEAD <= s.maxPerSession
    modifies s
    ensures s.Valid() && s.delivered == old(s.delivered) + [id]
    ensures s.incoming == old(s.incoming) && s.incomingBufferSize == old(s.incomingBufferSize)
    ensures s.completed == CacheOf(old(s.completed), Completed(id, now)) && s.highest == NewHighest(old(s.highest), id)
    ensures forall origin | old(s.Once(origin)) && Pos(origin, id) < HALF :: s.Once(origin)
  {
    var decodes := (_: seq<Byte>) => true;
    WholePacket(data, decodes);
    s.HandleData(id, 0, 1, data, now, true, true, decodes, _ => [], 0);
  }

  /**
   Forgetting what is not safe to forget always shows: with a free slot and memory for one
   packet, at most two packets after the cleanup an id is delivered a second time.
   */
  method ExpiryRedelivers(s: Session, origin: Id, now: nat, data: seq<Byte>) returns (id: Id)
    requires s.Valid() && s.Once(origin) && !s.SafeToForget(now)
    requires |s.incoming| < MAX_CONCURRENT_INCOMING && |data| <= MAX_MESSAGE_SIZE
    requires s.incomingBufferSize + |data| + PER_FRAGMENT_OVERHEAD <= s.maxPerSession
    modifies s
    ensures s.Valid() && id in old(s.delivered)
    ensures s.delivered == old(s.delivered) + [id] || s.delivered == old(s.delivered) + [Succ(id), id]
  {
    var k :| 0 <= k < |s.completed| && UnsafeAt(s.highest, s.completed, s.delivered, now, k);
    id := s.completed[k].id;
    AfterCleanup(origin, s.highest, s.incoming, s.completed, s.delivered, now, k);
    s.Cleanup(now);
    DeliverAgain(s, id, data, now);
  }

  /** Within the lookback, gone from cache and reassembly, and the id after the highest is new. */
  ghost predicate Exposed(id: Id, highest: Option<Id>, slots: seq<Reassembler>, done: seq<Completed>) {
    && Fresh(id, slots, done) && highest.Some? && WrappingSub(highest.value, id) <= LOOKBACK
    && (id != highest.value ==> WrappingSub(id, highest.value) > HALF)
    && Fresh(Succ(highest.value), slots, done)
  }

  lemma AfterCleanup(origin: Id, highest: Option<Id>, slots: seq<Reassembler>, done: seq<Completed>, out: seq<Id>,
                     now: nat, k: nat)
    requires OnceOf(origin, highest, slots, done, out) && k < |done| && UnsafeAt(highest, done, out, now, k)
    ensures Exposed(done[k].id, highest, KeepActive(slots, now), KeepRecent(done, now))
    ensures |KeepActive(slots, now)| <= |slots|
  {
    var id := done[k].id;
    ExpiredIsGone(origin, highest, slots, done, out, now, k);
    FreshRecent(id, slots, KeepRecent(done, now), now);
    NextIsNew(origin, highest.value, slots, done, out);
    FreshRecent(Succ(highest.value), slots, done, now);
    FreshRecent(Succ(highest.value), slots, KeepRecent(done, now), now);
    KeptSlots(slots, now);
    Serial(origin, id, highest.value);
    PosInjective(origin, id, highest.value);
  }

  /** An exposed id is delivered by one packet, or by a second one when it is itself the highest. */
  method DeliverAgain(s: Session, id: Id, data: seq<Byte>, now: nat)
    requires s.Valid() && Exposed(id, s.highest, s.incoming, s.completed)
    requires |s.incoming| < MAX_CONCURRENT_INCOMING && |data| <= MAX_MESSAGE_SIZE
    requires s.incomingBufferSize + |data| + PER_FRAGMENT_OVERHEAD <= s.maxPerSession
    modifies s
    ensures s.Valid()
    ensures s.delivered == old(s.delivered) + [id] || s.delivered == old(s.delivered) + [Succ(id), id]
  {
    SuccFacts(id);
    if id == s.highest.value {
      DeliverWhole(s, Succ(id), data, now);
      assert Fresh(id, s.incoming, s.completed);
    }
    DeliverWhole(s, id, data, now);
  }

  /** The shortest such run: one message, expiry, and the same message again behind the next. */
  method ExpiryRun() returns (s: Session)
    ensures s.Valid() && (s.delivered == [0, 0] || s.delivered == [0, 1, 0])
  {
    s := new Session(100);
    assert s.Once(0);
    DeliverWhole(s, 0, [1, 2, 3], 0);
    assert s.completed == [Completed(0, 0)] && s.highest == Some(0);
    assert UnsafeAt(s.highest, s.completed, s.delivered, 30, 0);
    var id := ExpiryRedelivers(s, 0, 30, [1, 2, 3]);
  }
}
