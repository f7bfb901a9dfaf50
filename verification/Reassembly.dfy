/**
 The reassembly of one message in tox-sequenced: the buffer of fragments (`FragmentBuffer`)
 and the reassembler that tests sizes in front of it (`MessageReassembler`).  Fragments
 arrive in any order and more than once; the objects do what `Contents` says of values.
 */
module Reassembly {
  import opened Wrappers
  import opened Protocol
  import opened Bytes
  import opened Bits
  import opened Outgoing
  import opened Contents

  const BITSET_WORDS: nat := 16

  lemma Full(s: set<nat>, n: nat)
    ensures CountIn(s, 0, n) == n <==> forall i: nat | i < n :: i in s
  {
    CountFull(s, 0, n);
    if forall i: nat | i < n :: i in s { CountInConst(s, 0, n, true); }
  }

  // ------------------------------------------------------- the buffer

  class FragmentBuffer {
    const total: nat
    const received: BitSet
    var fragments: Fragments
    var receivedCount: nat
    var currentSize: nat
    var fullSize: Option<nat>
    var lastSize: Option<nat>
    var baseIndex: nat
    var highestIndex: nat

    ghost predicate Valid()
      reads this, received, received.words
    {
      && Counted() && baseIndex == FirstGap(received.View(), total)
      && highestIndex == Highest(received.View(), total)
    }

    /** The fragments, the bit set, the count and the sizes agree. */
    ghost predicate Counted()
      reads this, received, received.words
    {
      && Sized() && received.words.Length == BITSET_WORDS
      && (forall i: nat :: i in received.View() <==> i < total && fragments[i].Some?)
      && receivedCount == CountIn(received.View(), 0, total)
    }

    ghost predicate Sized()
      reads this
    {
      && 1 <= total <= MAX_FRAGMENTS_PER_MESSAGE && |fragments| == total
      && currentSize == Stored(fragments) && fullSize == Longest(fragments[..total - 1])
      && lastSize == (if fragments[total - 1].Some? then Some(|fragments[total - 1].value|) else None)
    }

    constructor (total: nat)
      requires 1 <= total <= MAX_FRAGMENTS_PER_MESSAGE
      ensures Valid() && fresh(received) && fresh(received.words) && this.total == total
      ensures forall i | 0 <= i < total :: fragments[i].None?
    {
      this.total := total;
      fragments := seq(total, _ => None);
      receivedCount, currentSize, fullSize, lastSize, baseIndex, highestIndex := 0, 0, None, None, 0, 0;
      received := new BitSet(BITSET_WORDS);
      new;
      CountInConst({}, 0, total, false);
      NoneStored(fragments);
      NoneStored(fragments[..total - 1]);
    }

    /** Whether the count says that all fragments are there. */
    predicate IsComplete()
      reads this
    {
      receivedCount == total
    }

    /**
     Stores a fragment unless its index is out of range or already there; answers whether
     all are there now.
     */
    method AddFragment(index: nat, data: seq<Byte>) returns (r: Option<bool>)
      requires Valid()
      modifies this, received.words
      ensures Valid()
      ensures r.None? <==> index >= total
      ensures r.Some? ==> (r.value <==> Whole(fragments))
      ensures fragments == if index < total && old(fragments)[index].None? then old(fragments)[index := Some(data)]
                           else old(fragments)
    {
      if index >= total { return None; }
      var had := received.Get(index);
      if !had {
        Store(index, data);
        Advance(index, old(received.View()));
      }
      CompleteMeans();
      return Some(IsComplete());
    }

    /** The base and the highest index follow a fragment that has just come. */
    method Advance(index: nat, ghost before: set<nat>)
      requires index < total && index !in before && received.View() == before + {index}
      requires baseIndex == FirstGap(before, total) && highestIndex == Highest(before, total)
      modifies `baseIndex, `highestIndex
      ensures baseIndex == FirstGap(received.View(), total) && highestIndex == Highest(received.View(), total)
    {
      if index == baseIndex { AdvanceBase(); } else { GapStays(before, index, total); }
      HighestAdd(before, index, total);
      if index > highestIndex { highestIndex := index; }
    }

    /** Puts a fragment that is not there yet in its place. */
    method Store(index: nat, data: seq<Byte>)
      requires Counted() && index < total && fragments[index].None?
      modifies `fragments, `receivedCount, `currentSize, `fullSize, `lastSize, received.words
      ensures Counted() && fragments == old(fragments)[index := Some(data)]
      ensures received.View() == old(received.View()) + {index}
    {
      Keep(index, data);
      CountInAdd(received.View(), index, total);
      var changed := received.Set(index);
      receivedCount := receivedCount + 1;
    }

    /** The fragment and the sizes. */
    method Keep(index: nat, data: seq<Byte>)
      requires Sized() && index < total && fragments[index].None?
      modifies `fragments, `currentSize, `fullSize, `lastSize
      ensures Sized() && fragments == old(fragments)[index := Some(data)]
    {
      if index == total - 1 {
        lastSize := Some(|data|);
      } else if fullSize.None? || |data| > fullSize.value {
        fullSize := Some(|data|);
      }
      StoredAdd(fragments, index, data);
      FrontAdd(fragments, index, data);
      currentSize := currentSize + |data|;
      fragments := fragments[index := Some(data)];
    }

    /** The sizes kept by the buffer plan what its contents say. */
    lemma PlannedIs()
      requires Valid()
      ensures PlannedTotalSize() == Planned(fragments)
    {
      PresentIsCount(fragments, received.View());
    }

    /** The first fragment that was missing has come: the base moves to the next one missing. */
    method AdvanceBase()
      requires baseIndex < total && (forall i: nat | i <= baseIndex :: i in received.View())
      modifies `baseIndex
      ensures baseIndex == FirstGap(received.View(), total)
    {
      baseIndex := baseIndex + 1;
      var more := received.Get(baseIndex);
      while baseIndex < total && more
        invariant baseIndex <= total && forall i: nat | i < baseIndex :: i in received.View()
        invariant more <==> baseIndex in received.View()
        decreases total - baseIndex
      {
        baseIndex := baseIndex + 1;
        more := received.Get(baseIndex);
      }
      GapIs(received.View(), total, baseIndex);
    }

    lemma CompleteMeans()
      requires |fragments| == total && receivedCount == CountIn(received.View(), 0, total)
      requires forall i: nat :: i in received.View() <==> i < total && fragments[i].Some?
      ensures IsComplete() <==> Whole(fragments)
    {
      Full(received.View(), total);
    }

    /** What the session reserves for the message. */
    function PlannedTotalSize(): nat
      reads this
    {
      var full := if fullSize.Some? then fullSize.value else ESTIMATED_PAYLOAD_SIZE;
      var last := if lastSize.Some? then lastSize.value else full;
      var estimated := if total <= 1 then last else (total - 1) * full + last;
      var planned := estimated + total * PER_FRAGMENT_OVERHEAD;
      var inUse := currentSize + receivedCount * PER_FRAGMENT_OVERHEAD;
      if total == 0 then 0 else if planned >= inUse then planned else inUse
    }

    /** The payload once it is complete. */
    method Assemble() returns (r: Option<seq<Byte>>)
      requires Valid()
      ensures r == if Whole(fragments) then Some(Joined(fragments)) else None
    {
      CompleteMeans();
      if !IsComplete() { return None; }
      var result := Join(fragments);
      return Some(result);
    }

    /** `create_ack`: the base kept by the buffer and the mask of the bit set. */
    method CreateAck() returns (base: nat, mask: Word)
      requires Valid()
      ensures IsAckOf(received.View(), total, base, mask)
    {
      base := baseIndex;
      mask := received.SackMask(baseIndex);
    }
  }

  method Join(f: Fragments) returns (result: seq<Byte>)
    ensures result == Joined(f)
  {
    result := [];
    for i := 0 to |f|
      invariant result == Joined(f[..i])
    {
      assert f[..i + 1][..i] == f[..i];
      if f[i].Some? { result := result + f[i].value; }
    }
    assert f[..|f|] == f;
  }

  lemma FrontAdd(f: Fragments, i: nat, data: seq<Byte>)
    requires i < |f| && f[i].None?
    ensures var front, after := f[..|f| - 1], f[i := Some(data)][..|f| - 1];
            Longest(after) == if i < |f| - 1 then Longer(Longest(front), Some(data)) else Longest(front)
  {
    var front, after := f[..|f| - 1], f[i := Some(data)][..|f| - 1];
    if i < |f| - 1 {
      assert after == front[i := Some(data)];
      LongestAdd(front, i, data);
    } else {
      assert after == front;
    }
  }

  /** The greatest index received, 0 when there is none. */
  ghost function Highest(s: set<nat>, limit: nat): nat {
    var last := LastMember(s, limit);
    if last.Some? then last.value else 0
  }

  lemma HighestAdd(s: set<nat>, i: nat, limit: nat)
    requires i < limit
    ensures Highest(s + {i}, limit) == if i > Highest(s, limit) then i else Highest(s, limit)
  {
    var last := LastMember(s, limit);
    LastMemberUnique(s + {i}, limit, Some(if last.Some? && last.value > i then last.value else i));
  }

  lemma GapIs(s: set<nat>, limit: nat, g: nat)
    requires g <= limit && (forall i: nat | i < g :: i in s) && (g < limit ==> g !in s)
    ensures g == FirstGap(s, limit)
  {
    GapFromUnique(s, 0, limit, if g < limit then Some(g) else None);
  }

  lemma GapStays(s: set<nat>, i: nat, limit: nat)
    requires i != FirstGap(s, limit) && i !in s
    ensures FirstGap(s + {i}, limit) == FirstGap(s, limit)
  {
    GapIs(s + {i}, limit, FirstGap(s, limit));
  }

  // ------------------------------------------------------- the reassembler

  class MessageReassembler {
    const buffer: FragmentBuffer

    constructor (total: nat)
      requires 1 <= total <= MAX_FRAGMENTS_PER_MESSAGE
      ensures fresh(buffer) && fresh(buffer.received) && fresh(buffer.received.words) && buffer.Valid()
      ensures buffer.total == total && forall i | 0 <= i < total :: buffer.fragments[i].None?
    {
      buffer := new FragmentBuffer(total);
    }

    /** The size test, then the buffer. */
    method AddFragment(index: nat, data: seq<Byte>) returns (r: Option<bool>)
      requires buffer.Valid()
      modifies buffer, buffer.received.words
      ensures buffer.Valid()
      ensures Accept(old(buffer.fragments), index, data) ==
              if r.None? then Refused else Held(buffer.fragments, r.value)
      ensures r.None? ==> buffer.fragments == old(buffer.fragments)
    {
      if buffer.currentSize + |data| > MAX_MESSAGE_SIZE { return None; }
      r := buffer.AddFragment(index, data);
    }
  }

  // ------------------------------------------------------- end to end

  /**
   Fragments of a payload arriving one after the other, in any order and any number of times: the
   payload is put together exactly when the size test lets the last one through, and is the payload.
   */
  method Transfer(payload: seq<Byte>, mtu: nat, arrivals: seq<nat>) returns (r: Option<seq<Byte>>)
    requires mtu > 0 && 1 <= CeilDiv(|payload|, mtu) <= MAX_FRAGMENTS_PER_MESSAGE
    ensures var l := Layout(|payload|, mtu, CeilDiv(|payload|, mtu));
            l.Ok() && r == if FateOf(l, {}, arrivals) == Done then Some(payload) else None
  {
    FragmentationIsLossless(payload, mtu);
    r := Gather(payload, Layout(|payload|, mtu, CeilDiv(|payload|, mtu)), arrivals);
  }

  method Gather(payload: seq<Byte>, l: Layout, arrivals: seq<nat>) returns (r: Option<seq<Byte>>)
    requires l.Ok() && l.size == |payload| && l.count >= 1 && Concat(payload, l, l.count) == payload
    ensures r == if FateOf(l, {}, arrivals) == Done then Some(payload) else None
  {
    var m := new MessageReassembler(l.count);
    assert Arrived(m.buffer.fragments) == {};
    for k := 0 to |arrivals|
      invariant m.buffer.Valid() && fresh(m.buffer) && fresh(m.buffer.received.words) && m.buffer.total == l.count
      invariant Carries(m.buffer.fragments, payload, l)
      invariant FateOf(l, {}, arrivals) == FateOf(l, Arrived(m.buffer.fragments), arrivals[k..])
    {
      var i := arrivals[k];
      ArrivalMeans(m.buffer.fragments, payload, l, arrivals, k);
      var complete := m.AddFragment(i, Fragment(payload, l, i));
      if complete.None? { return None; }
      if complete.value {
        JoinedIsPayload(m.buffer.fragments, payload, l);
        r := m.buffer.Assemble();
        return;
      }
    }
    return None;
  }

  /** What the reassembler answers is what becomes of the message. */
  lemma ArrivalMeans(f: Fragments, payload: seq<Byte>, l: Layout, arrivals: seq<nat>, k: nat)
    requires l.Ok() && l.size == |payload| && |f| == l.count && Carries(f, payload, l) && k < |arrivals|
    ensures var fate := FateOf(l, Arrived(f), arrivals[k..]);
            var answer := Accept(f, arrivals[k], Fragment(payload, l, arrivals[k]));
            if answer.Refused? then fate == Lost
            else && |answer.fragments| == l.count && Carries(answer.fragments, payload, l)
                 && if answer.complete then fate == Done
                    else fate == FateOf(l, Arrived(answer.fragments), arrivals[k + 1..])
  {
    AcceptMeans(f, payload, l, arrivals[k]);
    assert arrivals[k..][0] == arrivals[k] && arrivals[k..][1..] == arrivals[k + 1..];
  }

  /**
   The selective ACK of a receiver, fed to the sender: it acks exactly what the receiver
   holds up to 64 past its base, and nothing that it lacks.
   */
  method Acknowledge(buffer: FragmentBuffer, msg: Message, now: Instant) returns (m: Message, base: nat)
    requires buffer.Valid() && msg.Valid() && msg.layout.count == buffer.total
    ensures m.Valid() && base == FirstGap(buffer.received.View(), buffer.total)
    ensures m.acked == msg.acked + set i | i in buffer.received.View() && i <= base + 64
    ensures msg.acked <= buffer.received.View() ==> m.acked <= buffer.received.View()
    ensures Whole(buffer.fragments) ==> m.AllAcked()
  {
    var mask, res;
    ghost var lost;
    base, mask := buffer.CreateAck();
    SackRoundTrip(buffer.received.View(), buffer.total, base, mask);
    m, res, lost := msg.OnAck(base, mask, now);
    if Whole(buffer.fragments) { CountInConst(m.acked, 0, buffer.total, true); }
  }
}
