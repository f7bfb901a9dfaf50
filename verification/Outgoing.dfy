/**
 One outgoing message of tox-sequenced (`OutgoingMessage`): which fragments are
 acknowledged, in flight, or waiting for retransmission.

 The same facts are kept several times over (per-fragment `lastSent` and the
 in-flight queue, the retransmit queue and its bit set, the acked set and its
 count); `Valid` says how the copies agree.  Bit sets appear as the sets that
 `Bits.BitSet` is proved to represent.
 */
module Outgoing {
  import opened Wrappers
  import opened Protocol
  import opened Bits

  type Instant = nat

  // ---------------------------------------------------- index sets and queues

  ghost predicate Within(s: set<nat>, n: nat) {
    forall i | i in s :: i < n
  }

  /** Number of members of `s` in [lo, hi). */
  function CountIn(s: set<nat>, lo: nat, hi: nat): nat
    decreases hi - lo
  {
    if lo >= hi then 0 else (if lo in s then 1 else 0) + CountIn(s, lo + 1, hi)
  }

  lemma {:induction false} CountInSplit(s: set<nat>, lo: nat, mid: nat, hi: nat)
    requires lo <= mid <= hi
    ensures CountIn(s, lo, hi) == CountIn(s, lo, mid) + CountIn(s, mid, hi)
    decreases mid - lo
  {
    if lo < mid { CountInSplit(s, lo + 1, mid, hi); }
  }

  lemma CountInNext(s: set<nat>, i: nat, n: nat)
    requires i < n
    ensures CountIn(s, 0, i + 1) == CountIn(s, 0, i) + if i in s then 1 else 0
    ensures CountIn(s, 0, n) == CountIn(s, 0, i) + CountIn(s, i, n)
  {
    CountInSplit(s, 0, i, n);
    CountInSplit(s, 0, i, i + 1);
  }

  /** The count is the size of the set. */
  lemma {:induction false} CountInIsSize(s: set<nat>, n: nat)
    requires Within(s, n)
    ensures CountIn(s, 0, n) == |s|
  {
    if n > 0 {
      CountInSplit(s, 0, n - 1, n);
      var t := s - {n - 1};
      CountInIsSize(t, n - 1);
      CountInSame(s, t, 0, n - 1);
      if n - 1 in s { assert s == t + {n - 1}; } else { assert s == t; }
    } else {
      assert s == {};
    }
  }

  lemma {:induction false} CountInSame(s: set<nat>, t: set<nat>, lo: nat, hi: nat)
    requires forall i: nat | lo <= i < hi :: i in s <==> i in t
    ensures CountIn(s, lo, hi) == CountIn(t, lo, hi)
    decreases hi - lo
  {
    if lo < hi { CountInSame(s, t, lo + 1, hi); }
  }

  lemma CountInAdd(s: set<nat>, i: nat, n: nat)
    requires i !in s && i < n
    ensures CountIn(s + {i}, 0, n) == CountIn(s, 0, n) + 1
  {
    CountInSplit(s, 0, i, n);
    CountInSplit(s + {i}, 0, i, n);
    CountInSame(s, s + {i}, 0, i);
    CountInSame(s, s + {i}, i + 1, n);
  }

  /** A full stretch counts its length, an empty one counts 0. */
  lemma {:induction false} CountInConst(s: set<nat>, lo: nat, hi: nat, full: bool)
    requires lo <= hi && forall i: nat | lo <= i < hi :: i in s <==> full
    ensures CountIn(s, lo, hi) == if full then hi - lo else 0
    decreases hi - lo
  {
    if lo < hi { CountInConst(s, lo + 1, hi, full); }
  }

  /** A full count means that every index is a member. */
  lemma {:induction false} CountFull(s: set<nat>, lo: nat, hi: nat)
    requires lo <= hi
    ensures CountIn(s, lo, hi) <= hi - lo
    ensures CountIn(s, lo, hi) == hi - lo ==> forall i: nat | lo <= i < hi :: i in s
    decreases hi - lo
  {
    if lo < hi { CountFull(s, lo + 1, hi); }
  }

  function Elems(q: seq<nat>): set<nat> {
    if q == [] then {} else Elems(q[..|q| - 1]) + {q[|q| - 1]}
  }

  lemma {:induction false} ElemsMember(q: seq<nat>, x: nat)
    ensures x in Elems(q) <==> x in q
  {
    if q != [] {
      ElemsMember(q[..|q| - 1], x);
      assert q == q[..|q| - 1] + [q[|q| - 1]];
    }
  }

  lemma ElemsAre(q: seq<nat>, s: set<nat>)
    requires forall x: nat :: x in q <==> x in s
    ensures Elems(q) == s
  {
    forall x: nat ensures x in Elems(q) <==> x in s { ElemsMember(q, x); }
  }

  /** The queue lists the set: every member once, nothing else. */
  ghost predicate Lists(q: seq<nat>, s: set<nat>) {
    if q == [] then s == {}
    else q[|q| - 1] in s && Lists(q[..|q| - 1], s - {q[|q| - 1]})
  }

  lemma ListsPush(q: seq<nat>, s: set<nat>, x: nat)
    requires Lists(q, s) && x !in s
    ensures Lists(q + [x], s + {x})
  {
    assert (q + [x])[..|q|] == q;
    assert s + {x} - {x} == s;
  }

  lemma {:induction false} ListsPopFront(q: seq<nat>, s: set<nat>)
    requires Lists(q, s) && q != []
    ensures q[0] in s && Lists(q[1..], s - {q[0]})
  {
    if |q| > 1 {
      var last := q[|q| - 1];
      ListsPopFront(q[..|q| - 1], s - {last});
      assert q[1..][..|q| - 2] == q[..|q| - 1][1..];
      assert s - {last} - {q[0]} == s - {q[0]} - {last};
    }
  }

  /** What `Lists` says: no duplicate, and membership agrees. */
  lemma {:induction false} ListsMeans(q: seq<nat>, s: set<nat>)
    ensures Lists(q, s) <==> Elems(q) == s && forall i, j | 0 <= i < j < |q| :: q[i] != q[j]
  {
    if q != [] {
      var p, last := q[..|q| - 1], q[|q| - 1];
      ListsMeans(p, s - {last});
      ElemsMember(p, last);
    }
  }

  /** An entry of the in-flight queue: a fragment and when it went out. */
  datatype Flying = Flying(idx: nat, at: Instant)

  function Indices(q: seq<Flying>): set<nat> {
    if q == [] then {} else Indices(q[..|q| - 1]) + {q[|q| - 1].idx}
  }

  lemma IndicesPush(q: seq<Flying>, e: Flying)
    ensures Indices(q + [e]) == Indices(q) + {e.idx}
  {
    assert (q + [e])[..|q|] == q;
  }

  lemma {:induction false} IndicesMember(q: seq<Flying>, k: nat)
    requires k < |q|
    ensures q[k].idx in Indices(q)
  {
    if k < |q| - 1 { IndicesMember(q[..|q| - 1], k); }
  }

  lemma {:induction false} IndicesSplit(q: seq<Flying>)
    requires |q| > 0
    ensures Indices(q) == {q[0].idx} + Indices(q[1..])
  {
    if |q| > 1 {
      IndicesSplit(q[..|q| - 1]);
      assert q[1..][..|q| - 2] == q[..|q| - 1][1..];
    }
  }

  // ------------------------------------------------------------- fragmentation

  /** How `size` bytes of payload are cut: `count` fragments of `mtu` bytes, the last one shorter. */
  datatype Layout = Layout(size: nat, mtu: nat, count: nat) {
    function Start(i: nat): nat { i * mtu }

    ghost predicate Ok() {
      && 0 < mtu && count <= MAX_FRAGMENTS_PER_MESSAGE
      && forall i: nat | i < count :: Start(i) < size
    }

    function Len(i: nat): nat
      requires Ok()
    {
      if i >= count then 0
      else if Start(i) + mtu <= size then mtu else size - Start(i)
    }

    /** Total length of the fragments in `s` with index below `n`. */
    function Sum(s: set<nat>, n: nat): nat
      requires Ok()
    {
      if n == 0 then 0
      else Sum(s, n - 1) + (if n - 1 in s then Len(n - 1) else 0)
    }

    function Bytes(s: set<nat>): nat
      requires Ok()
    {
      Sum(s, count)
    }

    lemma {:induction false} SumAdd(s: set<nat>, i: nat, n: nat)
      requires Ok() && i !in s
      ensures Sum(s + {i}, n) == Sum(s, n) + (if i < n then Len(i) else 0)
    {
      if n > 0 { SumAdd(s, i, n - 1); }
    }

    /** Adding one index adds its length; an index past the end has length 0. */
    lemma BytesAdd(s: set<nat>, i: nat)
      requires Ok() && i !in s
      ensures Bytes(s + {i}) == Bytes(s) + Len(i)
    {
      SumAdd(s, i, count);
    }

    lemma BytesRemove(s: set<nat>, i: nat)
      requires Ok() && i in s
      ensures Bytes(s - {i}) == Bytes(s) - Len(i)
    {
      BytesAdd(s - {i}, i);
      assert s - {i} + {i} == s;
    }

    lemma {:induction false} SumUnion(s: set<nat>, t: set<nat>, n: nat)
      requires Ok() && s !! t
      ensures Sum(s + t, n) == Sum(s, n) + Sum(t, n)
    {
      if n > 0 { SumUnion(s, t, n - 1); }
    }

    lemma BytesUnion(s: set<nat>, t: set<nat>)
      requires Ok() && s !! t
      ensures Bytes(s + t) == Bytes(s) + Bytes(t)
    {
      SumUnion(s, t, count);
    }

    lemma {:induction false} SumEmpty(n: nat)
      requires Ok()
      ensures Sum({}, n) == 0
    {
      if n > 0 { SumEmpty(n - 1); }
    }
  }

  /** `div_ceil` */
  function CeilDiv(a: nat, b: nat): nat
    requires b > 0
  {
    (a + b - 1) / b
  }

  /** The fragment count `new` computes: the quotient, cut down to 16 bits. */
  function FragmentCount(size: nat, mtu: nat): nat
    requires mtu > 0
  {
    CeilDiv(size, mtu) % 65536
  }

  lemma CeilDivBounds(a: nat, b: nat, i: nat)
    requires b > 0
    ensures i < CeilDiv(a, b) <==> i * b < a
  {
    var q := CeilDiv(a, b);
    assert q * b <= a + b - 1 < q * b + b;
    if i < q {
      assert (i + 1) * b <= q * b by { MulMonotone(i + 1, q, b); }
    } else {
      assert q * b <= i * b by { MulMonotone(q, i, b); }
    }
  }

  lemma MulMonotone(x: int, y: int, b: nat)
    requires x <= y
    ensures x * b <= y * b
  {
  }

  lemma NextStart(i: nat, mtu: nat)
    ensures (i + 1) * mtu == i * mtu + mtu
  {
  }

  lemma LayoutOk(size: nat, mtu: nat)
    requires mtu > 0 && FragmentCount(size, mtu) <= MAX_FRAGMENTS_PER_MESSAGE
    ensures Layout(size, mtu, FragmentCount(size, mtu)).Ok()
  {
    var l := Layout(size, mtu, FragmentCount(size, mtu));
    forall i: nat | i < l.count ensures l.Start(i) < size {
      CeilDivBounds(size, mtu, i);
    }
  }

  function Fragment<B>(data: seq<B>, l: Layout, i: nat): seq<B>
    requires l.Ok() && l.size == |data|
  {
    if i >= l.count then [] else data[l.Start(i)..l.Start(i) + l.Len(i)]
  }

  function Concat<B>(data: seq<B>, l: Layout, n: nat): seq<B>
    requires l.Ok() && l.size == |data| && n <= l.count
  {
    if n == 0 then [] else Concat(data, l, n - 1) + Fragment(data, l, n - 1)
  }

  /** A fragment ends where the next one starts, or at the end of the payload. */
  lemma FragmentEnd(l: Layout, n: nat)
    requires l.Ok() && 0 < n <= l.count
    ensures l.Start(n - 1) < l.size
    ensures l.Start(n - 1) + l.Len(n - 1) == if l.Start(n) <= l.size then l.Start(n) else l.size
  {
    NextStart(n - 1, l.mtu);
  }

  lemma AppendSlice<B>(data: seq<B>, front: seq<B>, slice: seq<B>, a: nat, b: nat)
    requires a <= b <= |data| && front == data[..a] && slice == data[a..b]
    ensures front + slice == data[..b]
  {
  }

  lemma ConcatGrows<B>(data: seq<B>, l: Layout, n: nat, a: nat, b: nat)
    requires l.Ok() && l.size == |data| && 0 < n <= l.count && a == l.Start(n - 1) && b == a + l.Len(n - 1) <= |data|
    requires Concat(data, l, n - 1) == data[..a]
    ensures Concat(data, l, n) == data[..b]
  {
    AppendSlice(data, Concat(data, l, n - 1), Fragment(data, l, n - 1), a, b);
  }

  /** Concatenating the first n fragments gives the first n * mtu bytes (or all of them). */
  lemma {:induction false} ConcatIsPrefix<B>(data: seq<B>, l: Layout, n: nat)
    requires l.Ok() && l.size == |data| && n <= l.count
    ensures Concat(data, l, n) == data[..if l.Start(n) <= |data| then l.Start(n) else |data|]
  {
    if n > 0 {
      ConcatIsPrefix(data, l, n - 1);
      FragmentEnd(l, n);
      ConcatGrows(data, l, n, l.Start(n - 1), l.Start(n - 1) + l.Len(n - 1));
    }
  }

  /** The cut-down count covers the payload exactly when nothing was cut. */
  lemma CountSuffices(size: nat, mtu: nat)
    requires mtu > 0
    ensures FragmentCount(size, mtu) * mtu >= size <==> CeilDiv(size, mtu) < 65536
  {
    CeilDivBounds(size, mtu, FragmentCount(size, mtu));
  }

  lemma PrefixIsAll<B>(data: seq<B>, n: nat)
    requires n <= |data|
    ensures data[..n] == data <==> n == |data|
  {
  }

  /**
   The receiver gets the whole payload back by concatenation exactly when the
   fragment count fitted in 16 bits.
   */
  lemma FragmentationIsLossless<B>(data: seq<B>, mtu: nat)
    requires mtu > 0 && FragmentCount(|data|, mtu) <= MAX_FRAGMENTS_PER_MESSAGE
    ensures var l := Layout(|data|, mtu, FragmentCount(|data|, mtu));
            l.Ok() && (Concat(data, l, l.count) == data <==> CeilDiv(|data|, mtu) < 65536)
  {
    LayoutOk(|data|, mtu);
    var l := Layout(|data|, mtu, FragmentCount(|data|, mtu));
    ConcatIsPrefix(data, l, l.count);
    PrefixIsAll(data, if l.Start(l.count) <= |data| then l.Start(l.count) else |data|);
    CountSuffices(|data|, mtu);
  }

  /** An input whose count is cut: 65,537 bytes in fragments of one byte make one fragment. */
  lemma CutCountLoses<B>(data: seq<B>)
    requires |data| == 65537
    ensures FragmentCount(|data|, 1) == 1
    ensures var l := Layout(|data|, 1, 1); l.Ok() && Concat(data, l, 1) == data[..1] != data
  {
    LayoutOk(|data|, 1);
    ConcatIsPrefix(data, Layout(|data|, 1, 1), 1);
  }

  // ------------------------------------------------------------ acknowledgement

  /** Bit k of a selective ACK names fragment base + 1 + k, in 16-bit arithmetic. */
  ghost predicate MaskNames(base: nat, mask: Word, i: nat) {
    exists k: nat | k < 64 :: mask[k] && i == (base + 1 + k) % 65536
  }

  /** The fragments a selective ACK speaks for. */
  ghost function AckCover(base: nat, mask: Word, count: nat): set<nat> {
    set i: nat | i < count && (i < base || MaskNames(base, mask, i))
  }

  /** 16-bit wrap-around in the mask never adds an index that the base does not cover already. */
  lemma WrapAddsNothing(base: nat, mask: Word, count: nat, i: nat)
    requires base < 65536 && count <= MAX_FRAGMENTS_PER_MESSAGE
    ensures i in AckCover(base, mask, count) <==>
            i < count && (i < base || (base < i <= base + 64 && mask[i - base - 1]))
  {
    if i < count && i >= base {
      if MaskNames(base, mask, i) {
        var k: nat :| k < 64 && mask[k] && i == (base + 1 + k) % 65536;
        assert base < 1024 && i == base + 1 + k;
      } else if base < i <= base + 64 {
        var k := i - base - 1;
        assert i == (base + 1 + k) % 65536;
      }
    }
  }

  /** What a receiver that holds `received` of `count` fragments puts in an ACK. */
  ghost predicate IsAckOf(received: set<nat>, count: nat, base: nat, mask: Word) {
    && base == FirstGap(received, count)
    && forall i: nat | i < 64 :: mask[i] <==> base + 1 + i in received
  }

  /** Feeding the receiver's ACK back names exactly what it holds up to 64 past the base. */
  lemma SackRoundTrip(received: set<nat>, count: nat, base: nat, mask: Word)
    requires count <= MAX_FRAGMENTS_PER_MESSAGE && Within(received, count)
    requires IsAckOf(received, count, base, mask)
    ensures AckCover(base, mask, count) == (set i | i in received && i <= base + 64)
  {
    forall i: nat
      ensures i in AckCover(base, mask, count) <==> i in (set i | i in received && i <= base + 64)
    {
      WrapAddsNothing(base, mask, count, i);
      if base < i <= base + 64 {
        assert mask[i - base - 1] <==> base + 1 + (i - base - 1) in received;
      }
    }
  }

  // ------------------------------------------------------------ message state

  /** `deliveryInfo` keeps the recorded size; timestamps for rate samples are left out. */
  datatype FragmentState = FragmentState(
    lastSent: Option<Instant>,
    deliveryInfo: Option<nat>,
    retransmitCount: nat,
    rtoBackoff: nat)

  function InFlightOf(states: seq<FragmentState>): set<nat> {
    if states == [] then {}
    else var n := |states| - 1;
         if states[n].lastSent.Some? then InFlightOf(states[..n]) + {n} else InFlightOf(states[..n])
  }

  function SentOf(states: seq<FragmentState>): set<nat> {
    if states == [] then {}
    else var n := |states| - 1;
         if states[n].deliveryInfo.Some? then SentOf(states[..n]) + {n} else SentOf(states[..n])
  }

  lemma {:induction false} StatesMember(states: seq<FragmentState>, i: nat)
    ensures i in InFlightOf(states) <==> i < |states| && states[i].lastSent.Some?
    ensures i in SentOf(states) <==> i < |states| && states[i].deliveryInfo.Some?
  {
    if states != [] { StatesMember(states[..|states| - 1], i); }
  }

  ghost predicate StatesOk(states: seq<FragmentState>, l: Layout)
    requires l.Ok()
  {
    && |states| == l.count
    && forall i | 0 <= i < |states| ::
         && (states[i].lastSent.Some? ==> states[i].deliveryInfo.Some?)
         && (states[i].deliveryInfo.Some? ==> states[i].deliveryInfo.value == l.Len(i))
  }

  datatype AckResult = AckResult(delivered: nat, completed: nat, lossDetected: bool)

  /** The hole rule: in flight, unacked, not queued, sent no later than something acked, three acked above. */
  ghost predicate IsHole(states: seq<FragmentState>, acked: set<nat>, queued: set<nat>,
                         latest: Option<Instant>, i: nat)
    requires i < |states|
  {
    && i !in acked && i !in queued
    && states[i].lastSent.Some? && latest.Some? && latest.value >= states[i].lastSent.value
    && CountIn(acked, i + 1, |states|) >= 3
  }

  ghost function Holes(states: seq<FragmentState>, acked: set<nat>, queued: set<nat>,
                       latest: Option<Instant>, n: nat): set<nat>
    requires n <= |states|
  {
    if n == 0 then {}
    else Holes(states, acked, queued, latest, n - 1)
         + if IsHole(states, acked, queued, latest, n - 1) then {n - 1} else {}
  }

  /** The same holes, lowest first. */
  ghost function HoleList(states: seq<FragmentState>, acked: set<nat>, queued: set<nat>,
                          latest: Option<Instant>, n: nat): seq<nat>
    requires n <= |states|
  {
    if n == 0 then []
    else HoleList(states, acked, queued, latest, n - 1)
         + if IsHole(states, acked, queued, latest, n - 1) then [n - 1] else []
  }

  lemma StatesUpdate(states: seq<FragmentState>, l: Layout, i: nat, st: FragmentState)
    requires l.Ok() && StatesOk(states, l) && i < |states|
    requires st.lastSent.Some? ==> st.deliveryInfo.Some?
    requires st.deliveryInfo.Some? ==> st.deliveryInfo.value == l.Len(i)
    ensures StatesOk(states[i := st], l)
    ensures InFlightOf(states[i := st])
            == if st.lastSent.Some? then InFlightOf(states) + {i} else InFlightOf(states) - {i}
    ensures SentOf(states[i := st]) == if st.deliveryInfo.Some? then SentOf(states) + {i} else SentOf(states) - {i}
  {
    var updated := states[i := st];
    forall k: nat
      ensures k in InFlightOf(updated) <==> if k == i then st.lastSent.Some? else k in InFlightOf(states)
      ensures k in SentOf(updated) <==> if k == i then st.deliveryInfo.Some? else k in SentOf(states)
    {
      StatesMember(states, k);
      StatesMember(updated, k);
    }
  }

  /** The clear bits of `acked` in [from, limit), found by repeated scanning. */
  method CollectGaps(acked: set<nat>, from: nat, limit: nat) returns (indices: seq<nat>)
    ensures forall i: nat :: i in indices <==> from <= i < limit && i !in acked
  {
    indices := [];
    var curr := from;
    while true
      invariant from <= curr
      invariant forall i: nat :: i in indices <==> from <= i < curr && i < limit && i !in acked
      decreases limit - curr
    {
      var next := GapFrom(acked, curr, limit);
      if next.None? { break; }
      indices := indices + [next.value];
      curr := next.value + 1;
    }
  }

  /** The unacked fragments named by the mask, lowest bit first. */
  method CollectNamed(acked: set<nat>, base: nat, mask: Word, count: nat) returns (indices: seq<nat>)
    ensures forall i: nat :: i in indices <==> i < count && i !in acked && MaskNames(base, mask, i)
  {
    indices := [];
    for k := 0 to 64
      invariant forall i: nat :: i in indices <==>
        i < count && i !in acked && exists j: nat | j < k :: mask[j] && i == (base + 1 + j) % 65536
    {
      if mask[k] {
        var idx := (base + 1 + k) % 65536;
        if idx < count && idx !in acked {
          indices := indices + [idx];
        }
      }
    }
  }

  lemma {:induction false} HolesMember(states: seq<FragmentState>, acked: set<nat>, queued: set<nat>,
                                       latest: Option<Instant>, n: nat, i: nat)
    requires n <= |states|
    ensures i in Holes(states, acked, queued, latest, n) <==> i < n && IsHole(states, acked, queued, latest, i)
  {
    if n > 0 { HolesMember(states, acked, queued, latest, n - 1, i); }
  }

  lemma HolesStep(states: seq<FragmentState>, acked: set<nat>, queued: set<nat>, latest: Option<Instant>,
                  n: nat, ackedAfter: int)
    requires n < |states| && ackedAfter == CountIn(acked, n, |states|)
    ensures Holes(states, acked, queued, latest, n + 1) == Holes(states, acked, queued, latest, n) +
            if && n !in acked && n !in queued && ackedAfter >= 3 && states[n].lastSent.Some?
               && latest.Some? && latest.value >= states[n].lastSent.value then {n} else {}
    ensures HoleList(states, acked, queued, latest, n + 1) == HoleList(states, acked, queued, latest, n) +
            if && n !in acked && n !in queued && ackedAfter >= 3 && states[n].lastSent.Some?
               && latest.Some? && latest.value >= states[n].lastSent.value then [n] else []
  {
  }

  /** The indices of a NACK that name an unacked fragment. */
  ghost function Wanted(missing: seq<nat>, count: nat, acked: set<nat>): set<nat> {
    set i | i in missing && i < count && i !in acked
  }

  lemma WantedStep(missing: seq<nat>, k: nat, count: nat, acked: set<nat>)
    requires k < |missing|
    ensures Wanted(missing[..k + 1], count, acked) == Wanted(missing[..k], count, acked) +
            if missing[k] < count && missing[k] !in acked then {missing[k]} else {}
  {
    assert missing[..k + 1] == missing[..k] + [missing[k]];
  }

  /** An index goes to the end of the queue unless it is queued. */
  function Requeue(queue: seq<nat>, idx: nat): seq<nat> { if idx in queue then queue else queue + [idx] }

  /** The queue after a NACK: the unacked fragments it names, in its order, behind those queued. */
  function Requeued(queue: seq<nat>, missing: seq<nat>, count: nat, acked: set<nat>): seq<nat> {
    if missing == [] then queue
    else
      var q, idx := Requeued(queue, missing[..|missing| - 1], count, acked), missing[|missing| - 1];
      if idx < count && idx !in acked then Requeue(q, idx) else q
  }

  lemma RequeuedStep(queue: seq<nat>, missing: seq<nat>, k: nat, count: nat, acked: set<nat>)
    requires k < |missing|
    ensures var q := Requeued(queue, missing[..k], count, acked);
            Requeued(queue, missing[..k + 1], count, acked)
            == if missing[k] < count && missing[k] !in acked then Requeue(q, missing[k]) else q
  {
    assert missing[..k + 1][..k] == missing[..k];
  }

  lemma ListsMember(q: seq<nat>, s: set<nat>, x: nat)
    requires Lists(q, s)
    ensures x in s <==> x in q
  {
    ListsMeans(q, s);
    ElemsMember(q, x);
  }

  lemma LostStep(flight: set<nat>, queued: set<nat>, toRemove: set<nat>, lost: set<nat>, hit: set<nat>)
    ensures flight - lost - hit == flight - (lost + hit)
    ensures queued + lost + hit == queued + (lost + hit)
    ensures toRemove + lost + hit == toRemove + (lost + hit)
  {
  }

  lemma NackStep(flight: set<nat>, queued: set<nat>, wanted: set<nat>, x: nat)
    ensures flight - wanted - {x} == flight - (wanted + {x})
    ensures queued + wanted + {x} == queued + (wanted + {x})
    ensures flight * (wanted + {x}) == flight * wanted + if x in flight then {x} else {}
  {
  }

  lemma CutStep(s: set<nat>, cut: set<nat>, x: nat)
    ensures (s + {x}) * cut == if x in cut then s * cut + {x} else s * cut
    ensures s + {x} - cut == if x in cut then s - cut else s - cut + {x}
  {
  }

  /** The list depends on what is a hole, and on nothing else. */
  lemma {:induction false} HoleListSame(states: seq<FragmentState>, after: seq<FragmentState>, acked: set<nat>,
                                        queued: set<nat>, queued': set<nat>, latest: Option<Instant>, n: nat)
    requires n <= |states| == |after|
    requires forall i: nat | i < n ::
               IsHole(states, acked, queued, latest, i) == IsHole(after, acked, queued', latest, i)
    ensures HoleList(states, acked, queued, latest, n) == HoleList(after, acked, queued', latest, n)
  {
    if n > 0 { HoleListSame(states, after, acked, queued, queued', latest, n - 1); }
  }

  lemma HolesWithin(states: seq<FragmentState>, acked: set<nat>, queued: set<nat>, latest: Option<Instant>)
    ensures var h := Holes(states, acked, queued, latest, |states|);
            h <= InFlightOf(states) && h !! acked && h !! queued
  {
    forall i: nat | i in Holes(states, acked, queued, latest, |states|)
      ensures i in InFlightOf(states) && i !in acked && i !in queued
    {
      HolesMember(states, acked, queued, latest, |states|, i);
      StatesMember(states, i);
    }
  }

  lemma {:induction false} NoHoles(states: seq<FragmentState>, acked: set<nat>, queued: set<nat>,
                                   latest: Option<Instant>, lo: nat, hi: nat)
    requires lo <= hi <= |states| && forall i: nat | lo <= i < hi :: !IsHole(states, acked, queued, latest, i)
    ensures HoleList(states, acked, queued, latest, hi) == HoleList(states, acked, queued, latest, lo)
    decreases hi
  {
    if lo < hi { NoHoles(states, acked, queued, latest, lo, hi - 1); }
  }

  /** No hole below a fully acked prefix, and none above the last acked fragment. */
  lemma HolesBounds(states: seq<FragmentState>, acked: set<nat>, queued: set<nat>, latest: Option<Instant>,
                    lo: nat, hi: nat)
    requires lo <= |states| && hi <= |states|
    requires forall i: nat | i < lo :: i in acked
    requires forall i: nat | hi <= i < |states| :: i !in acked
    ensures Holes(states, acked, queued, latest, lo) == {}
    ensures hi <= lo ==> Holes(states, acked, queued, latest, |states|) == {}
    ensures Holes(states, acked, queued, latest, |states|) == Holes(states, acked, queued, latest, hi)
    ensures HoleList(states, acked, queued, latest, lo) == []
    ensures hi <= lo ==> HoleList(states, acked, queued, latest, |states|) == []
    ensures HoleList(states, acked, queued, latest, |states|) == HoleList(states, acked, queued, latest, hi)
  {
    NoHoles(states, acked, queued, latest, 0, lo);
    forall i: nat | hi <= i < |states| ensures !IsHole(states, acked, queued, latest, i) {
      CountInConst(acked, i + 1, |states|, false);
    }
    NoHoles(states, acked, queued, latest, hi, |states|);
    if hi <= lo { NoHoles(states, acked, queued, latest, 0, hi); }
    var all, below, low := Holes(states, acked, queued, latest, |states|), Holes(states, acked, queued, latest, hi),
                           Holes(states, acked, queued, latest, lo);
    forall i: nat ensures i !in low && (i in all <==> i in below) {
      HolesMember(states, acked, queued, latest, lo, i);
      HolesMember(states, acked, queued, latest, hi, i);
      HolesMember(states, acked, queued, latest, |states|, i);
      if hi <= i < |states| { CountInConst(acked, i + 1, |states|, false); }
    }
    if hi <= lo {
      forall i: nat ensures i !in below { HolesMember(states, acked, queued, latest, hi, i); }
    }
  }

  /** Fast retransmission gives up the base at its third duplicate, unless something sent later is yet to be acked. */
  ghost predicate FastLost(states: seq<FragmentState>, acked: set<nat>, queued: set<nat>, latest: Option<Instant>,
                           base: nat, dups: nat)
  {
    && base < |states| && dups == 3 && base !in acked && base !in queued && states[base].lastSent.Some?
    && (latest.Some? ==> latest.value >= states[base].lastSent.value)
  }

  /** Everything an ACK gives up as lost: the holes, and the base if this ACK duplicates it for the third time. */
  ghost function LostTo(states: seq<FragmentState>, acked: set<nat>, queued: set<nat>, latest: Option<Instant>,
                        base: nat, duplicate: bool, dups: nat): set<nat>
  {
    Holes(states, acked, queued, latest, |states|) +
    if duplicate && FastLost(states, acked, queued, latest, base, dups) then {base} else {}
  }

  /** In the order in which they are queued: the base first, then the holes from below. */
  ghost function GivenUp(states: seq<FragmentState>, acked: set<nat>, queued: set<nat>, latest: Option<Instant>,
                         base: nat, duplicate: bool, dups: nat): seq<nat>
  {
    if duplicate && FastLost(states, acked, queued, latest, base, dups)
    then [base] + HoleList(states, acked, queued + {base}, latest, |states|)
    else HoleList(states, acked, queued, latest, |states|)
  }

  /** Giving up the base first changes no other hole. */
  lemma HolesAfterFast(states: seq<FragmentState>, acked: set<nat>, queued: set<nat>, latest: Option<Instant>,
                       base: nat)
    requires base < |states|
    ensures Holes(states[base := states[base].(lastSent := None)], acked, queued + {base}, latest, |states|) + {base}
            == Holes(states, acked, queued, latest, |states|) + {base}
    ensures HoleList(states[base := states[base].(lastSent := None)], acked, queued + {base}, latest, |states|)
            == HoleList(states, acked, queued + {base}, latest, |states|)
  {
    var after, n := states[base := states[base].(lastSent := None)], |states|;
    HoleListSame(after, states, acked, queued + {base}, queued + {base}, latest, n);
    forall i: nat | i != base
      ensures i in Holes(after, acked, queued + {base}, latest, n) <==> i in Holes(states, acked, queued, latest, n)
    {
      HolesMember(after, acked, queued + {base}, latest, n, i);
      HolesMember(states, acked, queued, latest, n, i);
    }
  }

  /** Giving up the base and then the holes that are left is giving up both. */
  lemma FastThenHoles(states: seq<FragmentState>, mid: seq<FragmentState>, acked: set<nat>, queued: set<nat>,
                      latest: Option<Instant>, base: nat, duplicate: bool, dups: nat)
    requires var fast := duplicate && FastLost(states, acked, queued, latest, base, dups);
             mid == if fast then states[base := states[base].(lastSent := None)] else states
    ensures var fast := duplicate && FastLost(states, acked, queued, latest, base, dups);
            var lost, first := if fast then {base} else {}, if fast then [base] else [];
            && LostTo(states, acked, queued, latest, base, duplicate, dups)
               == lost + Holes(mid, acked, queued + lost, latest, |mid|)
            && GivenUp(states, acked, queued, latest, base, duplicate, dups)
               == first + HoleList(mid, acked, queued + lost, latest, |mid|)
            && Cleared(mid, states, lost)
  {
    if base < |states| { HolesAfterFast(states, acked, queued, latest, base); }
    assert queued + {} == queued;
  }

  /** The fragments of `s` are no longer in flight; nothing else has changed. */
  ghost predicate Cleared(after: seq<FragmentState>, states: seq<FragmentState>, s: set<nat>) {
    && |after| == |states|
    && forall i: nat | i < |states| :: after[i] == if i in s then states[i].(lastSent := None) else states[i]
  }

  lemma ClearedStep(after: seq<FragmentState>, states: seq<FragmentState>, s: set<nat>, i: nat)
    requires Cleared(after, states, s) && i < |after|
    ensures Cleared(after[i := after[i].(lastSent := None)], states, s + {i})
  {
  }

  lemma ClearedMeans(after: seq<FragmentState>, states: seq<FragmentState>, s: set<nat>)
    requires Cleared(after, states, s)
    ensures InFlightOf(after) == InFlightOf(states) - s && SentOf(after) == SentOf(states)
  {
    forall i: nat
      ensures i in InFlightOf(after) <==> i in InFlightOf(states) - s
      ensures i in SentOf(after) <==> i in SentOf(states)
    {
      StatesMember(after, i);
      StatesMember(states, i);
    }
  }

  lemma AppendTwice(a: seq<nat>, b: seq<nat>, c: seq<nat>)
    ensures a + b + c == a + (b + c)
  {
  }

  /** Two rounds of losses are one. */
  lemma LossesCompose(msg: Message, fast: Message, m: Message, lost: set<nat>, holes: set<nat>, toRemove: set<nat>)
    requires Cleared(fast.states, msg.states, lost) && Cleared(m.states, fast.states, holes)
    requires fast.acked == msg.acked && fast.retransmitSet == msg.retransmitSet + lost
    requires lost <= msg.InFlight() && lost !! msg.acked && lost !! msg.retransmitSet
    requires holes <= fast.InFlight() && holes !! fast.acked && holes !! fast.retransmitSet
    ensures Cleared(m.states, msg.states, lost + holes)
    ensures m.InFlight() == msg.InFlight() - (lost + holes) && m.Sent() == msg.Sent()
    ensures lost + holes <= msg.InFlight() && lost + holes !! msg.acked && lost + holes !! msg.retransmitSet
    ensures msg.retransmitSet + lost + holes == msg.retransmitSet + (lost + holes)
    ensures toRemove + lost + holes == toRemove + (lost + holes)
  {
    ClearedMeans(fast.states, msg.states, lost);
    ClearedTwice(msg.states, fast.states, m.states, lost, holes);
    ClearedMeans(m.states, msg.states, lost + holes);
  }

  lemma ClearedTwice(states: seq<FragmentState>, mid: seq<FragmentState>, after: seq<FragmentState>, s: set<nat>,
                     t: set<nat>)
    requires Cleared(mid, states, s) && Cleared(after, mid, t)
    ensures Cleared(after, states, s + t)
  {
  }

  /** What an ACK gives up depends only on the unacked fragments. */
  lemma LostSame(states: seq<FragmentState>, after: seq<FragmentState>, s: set<nat>, acked: set<nat>, queued: set<nat>,
                 latest: Option<Instant>, base: nat, duplicate: bool, dups: nat)
    requires Cleared(after, states, s) && s <= acked
    ensures LostTo(after, acked, queued, latest, base, duplicate, dups)
            == LostTo(states, acked, queued, latest, base, duplicate, dups)
    ensures GivenUp(after, acked, queued, latest, base, duplicate, dups)
            == GivenUp(states, acked, queued, latest, base, duplicate, dups)
  {
    var n := |states|;
    HoleListSame(states, after, acked, queued, queued, latest, n);
    HoleListSame(states, after, acked, queued + {base}, queued + {base}, latest, n);
    forall i: nat
      ensures i in Holes(after, acked, queued, latest, n) <==> i in Holes(states, acked, queued, latest, n)
    {
      HolesMember(after, acked, queued, latest, n, i);
      HolesMember(states, acked, queued, latest, n, i);
    }
    assert Holes(after, acked, queued, latest, n) == Holes(states, acked, queued, latest, n);
  }

  /** `latest` is the latest of `before` and the send times of the fragments of `s` in flight. */
  ghost predicate LatestSent(states: seq<FragmentState>, before: Option<Instant>, s: set<nat>,
                             latest: Option<Instant>)
  {
    && (latest == before || (latest.Some? && exists i: nat | i < |states| :: i in s && states[i].lastSent == latest))
    && (before.Some? ==> latest.Some? && latest.value >= before.value)
    && (forall i: nat | i < |states| && i in s && states[i].lastSent.Some? ::
          latest.Some? && latest.value >= states[i].lastSent.value)
  }

  function Later(a: Option<Instant>, b: Option<Instant>): Option<Instant> {
    if b.Some? && (a.None? || b.value > a.value) then b else a
  }

  lemma LatestStep(states: seq<FragmentState>, before: Option<Instant>, s: set<nat>, latest: Option<Instant>, i: nat)
    requires LatestSent(states, before, s, latest) && i < |states|
    ensures LatestSent(states, before, s + {i}, Later(latest, states[i].lastSent))
  {
    var after := Later(latest, states[i].lastSent);
    if after != before {
      if after == latest {
        var j: nat :| j < |states| && j in s && states[j].lastSent == latest;
        assert j in s + {i};
      } else {
        assert i in s + {i} && states[i].lastSent == after;
      }
    }
  }

  /** `OutgoingMessage`: the session owns it by value, so each operation returns the updated message. */
  datatype Message = Message(
    layout: Layout,
    acked: set<nat>,
    ackedCount: nat,
    highestCumulativeAck: nat,
    nextFragment: nat,
    retransmitQueue: seq<nat>,
    retransmitSet: set<nat>,
    inFlightQueue: seq<Flying>,
    states: seq<FragmentState>,
    lastAckAt: Instant,
    timeout: nat,
    dupAckCount: nat,
    lastAckBase: nat,
    highestSentTimeAcked: Option<Instant>)
  {
    /** Fragments with `lastSent` set. */
    ghost function InFlight(): set<nat> { InFlightOf(states) }

    /** Fragments that went out at least once. */
    ghost function Sent(): set<nat> { SentOf(states) }

    /** What holds even in the middle of an ACK. */
    ghost predicate Core() {
      && layout.Ok() && StatesOk(states, layout)
      && Within(acked, layout.count) && ackedCount == CountIn(acked, 0, layout.count)
      && Lists(retransmitQueue, retransmitSet) && Within(retransmitSet, layout.count)
    }

    ghost predicate CumulativeOk() {
      forall i: nat | i < highestCumulativeAck && i < layout.count :: i in acked
    }

    ghost predicate Valid() {
      && Core() && CumulativeOk()
      && retransmitSet !! acked
      && Indices(inFlightQueue) == InFlight()
      && nextFragment <= layout.count
    }

    /** The peer has so far answered only for fragments that were sent. */
    ghost predicate Honest() {
      && (forall i: nat :: i in Sent() <==> i < nextFragment)
      && Within(acked, nextFragment) && Within(retransmitSet, nextFragment)
      && acked !! InFlight()
    }

    /** Nothing is forgotten: what was handed out is acked, in flight or queued. */
    ghost predicate Accounted() {
      forall i: nat | i < nextFragment :: i in acked || i in InFlight() || i in retransmitSet
    }

    ghost function InFlightBytes(): nat
      requires layout.Ok()
    {
      layout.Bytes(InFlight())
    }

    predicate IsAcked(index: nat) { index >= layout.count || index in acked }

    predicate AllAcked() { ackedCount == layout.count }

    method MarkFragmentSent(idx: nat, now: Instant)
      returns (m: Message, isRetransmission: bool, wasInFlight: bool)
      requires Valid() && idx < layout.count
      ensures m.Valid() && m == this.(states := m.states, inFlightQueue := inFlightQueue + [Flying(idx, now)])
      ensures isRetransmission <==> idx in Sent()
      ensures wasInFlight <==> idx in InFlight()
      ensures m.InFlight() == InFlight() + {idx} && m.Sent() == Sent() + {idx}
      ensures m.states == states[idx := m.states[idx]] && m.states[idx].lastSent == Some(now)
      ensures m.states[idx].rtoBackoff == states[idx].rtoBackoff
    {
      var state := states[idx];
      StatesMember(states, idx);
      isRetransmission := state.deliveryInfo.Some?;
      wasInFlight := state.lastSent.Some?;
      if isRetransmission {
        state := state.(retransmitCount := state.retransmitCount + 1);
      } else {
        state := state.(deliveryInfo := Some(layout.Len(idx)));
      }
      state := state.(lastSent := Some(now));
      StatesUpdate(states, layout, idx, state);
      IndicesPush(inFlightQueue, Flying(idx, now));
      m := this.(states := states[idx := state], inFlightQueue := inFlightQueue + [Flying(idx, now)]);
    }

    /** Lists the unacked fragments an ACK speaks for and raises the cumulative mark. */
    method CollectAckedIndices(base: nat, mask: Word) returns (indices: seq<nat>, cumulative: nat)
      requires Core() && CumulativeOk() && base < 65536
      ensures Elems(indices) == AckCover(base, mask, layout.count) - acked
      ensures cumulative == if highestCumulativeAck >= base then highestCumulativeAck else base
    {
      var limit := if base < layout.count then base else layout.count;
      var below := CollectGaps(acked, highestCumulativeAck, limit);
      cumulative := if highestCumulativeAck >= base then highestCumulativeAck else base;
      var named := CollectNamed(acked, base, mask, layout.count);
      indices := below + named;
      ElemsAre(indices, AckCover(base, mask, layout.count) - acked);
    }

    /** Acks one fragment; `toRemove` collects what left the flight. */
    method ProcessSingleAck(idx: nat, delivered: nat, toRemove: set<nat>)
      returns (m: Message, newlyAcked: bool, delivered': nat, toRemove': set<nat>)
      requires Core() && idx < layout.count
      ensures m.Core() && (newlyAcked <==> idx !in acked)
      ensures m == this.(acked := acked + {idx}, ackedCount := m.ackedCount, states := m.states,
                         highestSentTimeAcked := m.highestSentTimeAcked)
      ensures m.Sent() == Sent() && |m.states| == |states|
      ensures newlyAcked ==> m.states == states[idx := states[idx].(lastSent := None)]
      ensures newlyAcked ==> m.highestSentTimeAcked == Later(highestSentTimeAcked, states[idx].lastSent)
      ensures newlyAcked ==> m.InFlight() == InFlight() - {idx}
      ensures newlyAcked ==> delivered' == delivered + (if idx in Sent() then layout.Len(idx) else 0)
      ensures !newlyAcked ==> m == this && toRemove' == toRemove && delivered' == delivered
      ensures toRemove' == if newlyAcked && idx in InFlight() then toRemove + {idx} else toRemove
    {
      m, delivered', toRemove' := this, delivered, toRemove;
      if idx in acked {
        assert acked + {idx} == acked;
        return m, false, delivered', toRemove';
      }
      newlyAcked := true;
      CountInAdd(acked, idx, layout.count);
      var state := states[idx];
      StatesMember(states, idx);
      var latest := highestSentTimeAcked;
      if state.lastSent.Some? && (latest.None? || state.lastSent.value > latest.value) {
        latest := state.lastSent;
      }
      StatesUpdate(states, layout, idx, state.(lastSent := None));
      m := this.(acked := acked + {idx}, ackedCount := ackedCount + 1, highestSentTimeAcked := latest,
                 states := states[idx := state.(lastSent := None)]);
      assert m.Sent() == Sent();
      if state.deliveryInfo.Some? {
        delivered' := delivered + state.deliveryInfo.value;
        if state.lastSent.Some? { toRemove' := toRemove + {idx}; }
      }
    }

    /** `m` is this message after some fragments became acked, with what was reported about them. */
    ghost predicate AckedInto(m: Message, delivered: nat, toRemove: set<nat>)
      requires Core()
    {
      && m.Core() && acked <= m.acked
      && m == this.(acked := m.acked, ackedCount := m.ackedCount, states := m.states,
                    highestSentTimeAcked := m.highestSentTimeAcked)
      && var newly := m.acked - acked;
         && m.Sent() == Sent() && m.InFlight() == InFlight() - newly
         && toRemove == InFlight() * newly && delivered == layout.Bytes(newly * Sent())
         && Cleared(m.states, states, newly)
         && LatestSent(states, highestSentTimeAcked, newly, m.highestSentTimeAcked)
    }

    /** One more fragment, after others. */
    method AckNext(m: Message, i: nat, delivered: nat, toRemove: set<nat>)
      returns (m': Message, newly: bool, delivered': nat, toRemove': set<nat>)
      requires Core() && AckedInto(m, delivered, toRemove) && i < layout.count
      ensures AckedInto(m', delivered', toRemove') && m'.acked == m.acked + {i} && (newly <==> i !in m.acked)
    {
      m', newly, delivered', toRemove' := m.ProcessSingleAck(i, delivered, toRemove);
      if newly {
        ghost var before := m.acked - acked;
        assert m'.acked - acked == before + {i};
        ClearedStep(m.states, states, before, i);
        LatestStep(states, highestSentTimeAcked, before, m.highestSentTimeAcked, i);
        FreshBytes(layout, before, Sent(), i);
        assert InFlight() * (before + {i}) == InFlight() * before + if i in InFlight() then {i} else {};
      }
    }

    method AckAll(indices: seq<nat>) returns (m: Message, any: bool, delivered: nat, toRemove: set<nat>)
      requires Core() && forall x | x in indices :: x < layout.count
      ensures AckedInto(m, delivered, toRemove) && m.acked == acked + Elems(indices)
      ensures any <==> m.acked != acked
    {
      m, any, delivered, toRemove := this, false, 0, {};
      layout.SumEmpty(layout.count);
      assert acked - acked == {} && {} * Sent() == {} && acked + Elems([]) == acked;
      for k := 0 to |indices|
        invariant AckedInto(m, delivered, toRemove) && m.acked == acked + Elems(indices[..k])
        invariant any <==> m.acked != acked
      {
        assert indices[k] in indices && indices[..k + 1][..k] == indices[..k];
        assert acked + Elems(indices[..k]) + {indices[k]} == acked + Elems(indices[..k + 1]);
        var newly;
        m, newly, delivered, toRemove := AckNext(m, indices[k], delivered, toRemove);
        if newly { any := true; }
      }
      assert indices[..|indices|] == indices;
    }

    method TriggerLoss(idx: nat, toRemove: set<nat>) returns (m: Message, toRemove': set<nat>)
      requires Core() && idx < layout.count && idx !in retransmitSet && states[idx].lastSent.Some?
      ensures m.Core()
      ensures m == this.(retransmitQueue := retransmitQueue + [idx], retransmitSet := retransmitSet + {idx},
                         states := states[idx := states[idx].(lastSent := None)])
      ensures idx in InFlight() && m.InFlight() == InFlight() - {idx} && m.Sent() == Sent()
      ensures toRemove' == toRemove + {idx}
    {
      toRemove' := toRemove;
      StatesMember(states, idx);
      ListsPush(retransmitQueue, retransmitSet, idx);
      StatesUpdate(states, layout, idx, states[idx].(lastSent := None));
      m := this.(retransmitQueue := retransmitQueue + [idx], retransmitSet := retransmitSet + {idx},
                 states := states[idx := states[idx].(lastSent := None)]);
      assert m.Sent() == Sent();
      if states[idx].lastSent.Some? { toRemove' := toRemove + {idx}; }
    }

    /** Third duplicate ACK for the same base: the base fragment is taken as lost. */
    method HandleFastRetransmit(base: nat, toRemove: set<nat>)
      returns (m: Message, toRemove': set<nat>, lossDetected: bool, ghost lost: set<nat>)
      requires Core()
      ensures m.Core()
      ensures m == this.(dupAckCount := m.dupAckCount, retransmitQueue := m.retransmitQueue,
                         retransmitSet := retransmitSet + lost, states := m.states)
      ensures m.dupAckCount == dupAckCount + if base == lastAckBase && base < layout.count then 1 else 0
      ensures lost == if lossDetected then {base} else {}
      ensures lossDetected ==> m.states == states[base := states[base].(lastSent := None)]
      ensures !lossDetected ==> m.states == states
      ensures m.retransmitQueue == retransmitQueue + if lossDetected then [base] else []
      ensures lossDetected <==>
        && base == lastAckBase && base < layout.count && m.dupAckCount == 3
        && base !in acked && base !in retransmitSet && states[base].lastSent.Some?
        && (highestSentTimeAcked.Some? ==> highestSentTimeAcked.value >= states[base].lastSent.value)
      ensures lost <= InFlight() && m.InFlight() == InFlight() - lost && m.Sent() == Sent()
      ensures toRemove' == toRemove + lost
    {
      m, toRemove', lossDetected, lost := this, toRemove, false, {};
      if base == lastAckBase && base < layout.count {
        m := m.(dupAckCount := dupAckCount + 1);
        if m.dupAckCount == 3 && base !in acked && base !in retransmitSet {
          var ls := states[base].lastSent;
          if ls.Some? && (highestSentTimeAcked.None? || highestSentTimeAcked.value >= ls.value) {
            m, toRemove' := m.TriggerLoss(base, toRemove);
            lossDetected, lost := true, {base};
          }
        }
      }
    }

    /** `m` is this message after the holes below `idx` were given up. */
    ghost predicate ScannedInto(m: Message, idx: nat, lost: set<nat>)
      requires Core() && idx <= layout.count
    {
      && m.Core() && lost == Holes(states, acked, retransmitSet, highestSentTimeAcked, idx)
      && m == this.(retransmitQueue := m.retransmitQueue, retransmitSet := retransmitSet + lost, states := m.states)
      && m.retransmitQueue == retransmitQueue + HoleList(states, acked, retransmitSet, highestSentTimeAcked, idx)
      && Cleared(m.states, states, lost)
    }

    /** The test of one unacked fragment, with the number of acked fragments above it. */
    method ScanAt(m: Message, idx: nat, ackedAfter: nat, toRemove: set<nat>, ghost lost: set<nat>)
      returns (m': Message, toRemove': set<nat>, hit: bool)
      requires Core() && idx < layout.count && ScannedInto(m, idx, lost)
      requires idx !in acked && ackedAfter == CountIn(acked, idx, layout.count)
      ensures ScannedInto(m', idx + 1, lost + if hit then {idx} else {})
      ensures toRemove' == toRemove + if hit then {idx} else {}
    {
      HolesMember(states, acked, retransmitSet, highestSentTimeAcked, idx, idx);
      ClearedStep(m.states, states, lost, idx);
      HolesStep(states, acked, retransmitSet, highestSentTimeAcked, idx, ackedAfter);
      m', toRemove', hit := m, toRemove, false;
      var maxLs := highestSentTimeAcked;
      if idx !in m.retransmitSet && ackedAfter >= 3 {
        var ls := m.states[idx].lastSent;
        if ls.Some? && maxLs.Some? && maxLs.value >= ls.value {
          m', toRemove' := m.TriggerLoss(idx, toRemove);
          hit := true;
        }
      }
      LostStep(InFlight(), retransmitSet, toRemove, lost, if hit then {idx} else {});
    }

    /** One fragment of the scan, acked or not, with the running count of acked ones. */
    method ScanNext(m: Message, idx: nat, ackedSoFar: nat, toRemove: set<nat>, ghost lost: set<nat>)
      returns (m': Message, ackedSoFar': nat, toRemove': set<nat>, hit: bool)
      requires Core() && idx < layout.count && ScannedInto(m, idx, lost) && ackedSoFar == CountIn(acked, 0, idx)
      ensures ackedSoFar' == CountIn(acked, 0, idx + 1)
      ensures ScannedInto(m', idx + 1, lost + if hit then {idx} else {})
      ensures toRemove' == toRemove + if hit then {idx} else {}
    {
      CountInNext(acked, idx, layout.count);
      if idx in acked {
        HolesStep(states, acked, retransmitSet, highestSentTimeAcked, idx, CountIn(acked, idx, layout.count));
        assert lost + {} == lost && toRemove + {} == toRemove;
        return m, ackedSoFar + 1, toRemove, false;
      }
      ackedSoFar' := ackedSoFar;
      m', toRemove', hit := ScanAt(m, idx, ackedCount - ackedSoFar, toRemove, lost);
    }

    /**
     The scan for holes keeps one running counter; `ackedCount - ackedSoFar` never
     underflows and is the number of acked fragments above the hole, so the fragments
     queued are exactly those of the declarative rule.
     */
    method ScanHoles(from: nat, searchLimit: nat, toRemove: set<nat>)
      returns (m: Message, toRemove': set<nat>, any: bool, ghost lost: set<nat>)
      requires Core() && from < searchLimit <= layout.count && CountIn(acked, 0, from) == from
      requires Holes(states, acked, retransmitSet, highestSentTimeAcked, from) == {}
      requires HoleList(states, acked, retransmitSet, highestSentTimeAcked, from) == []
      ensures ScannedInto(m, searchLimit, lost)
      ensures toRemove' == toRemove + lost
      ensures any <==> lost != {}
    {
      m, toRemove', any, lost := this, toRemove, false, {};
      var ackedSoFar := from;
      assert retransmitSet + {} == retransmitSet;
      for idx := from to searchLimit
        invariant ackedSoFar == CountIn(acked, 0, idx)
        invariant ScannedInto(m, idx, lost)
        invariant toRemove' == toRemove + lost
        invariant any <==> lost != {}
      {
        var hit;
        m, ackedSoFar, toRemove', hit := ScanNext(m, idx, ackedSoFar, toRemove', lost);
        LostStep({}, {}, toRemove, lost, if hit then {idx} else {});
        any := any || hit;
        lost := lost + if hit then {idx} else {};
      }
    }

    method DetectLossesFromHoles(toRemove: set<nat>)
      returns (m: Message, toRemove': set<nat>, any: bool, ghost lost: set<nat>)
      requires Core() && CumulativeOk()
      ensures m.Core()
      ensures lost == Holes(states, acked, retransmitSet, highestSentTimeAcked, |states|)
      ensures m == this.(retransmitQueue := m.retransmitQueue, retransmitSet := retransmitSet + lost,
                         states := m.states)
      ensures m.retransmitQueue
              == retransmitQueue + HoleList(states, acked, retransmitSet, highestSentTimeAcked, |states|)
      ensures m.InFlight() == InFlight() - lost && m.Sent() == Sent() && Cleared(m.states, states, lost)
      ensures lost <= InFlight() && lost !! acked && lost !! retransmitSet
      ensures toRemove' == toRemove + lost
      ensures any <==> lost != {}
    {
      m, toRemove', any, lost := this, toRemove, false, {};
      var last := LastMember(acked, layout.count);
      var searchLimit := if last.Some? then last.value + 1 else 0;
      ghost var lo := if highestCumulativeAck < layout.count then highestCumulativeAck else layout.count;
      HolesBounds(states, acked, retransmitSet, highestSentTimeAcked, lo, searchLimit);
      assert retransmitSet + {} == retransmitSet;
      if highestCumulativeAck < searchLimit {
        CountInConst(acked, 0, lo, true);
        m, toRemove', any, lost := ScanHoles(highestCumulativeAck, searchLimit, toRemove);
      }
      ClearedMeans(m.states, states, lost);
      HolesWithin(states, acked, retransmitSet, highestSentTimeAcked);
    }

    /** The ACK repeats the last base and acknowledges something new. */
    predicate Duplicates(base: nat, anyNewlyAcked: bool) {
      anyNewlyAcked && base == lastAckBase && base < layout.count
    }

    function DupsAfter(base: nat, anyNewlyAcked: bool): nat {
      if base > lastAckBase then 0 else dupAckCount + if Duplicates(base, anyNewlyAcked) then 1 else 0
    }

    /** The part of loss detection that is about the base. */
    method DetectFast(base: nat, anyNewlyAcked: bool, toRemove: set<nat>)
      returns (m: Message, toRemove': set<nat>, lossDetected: bool, ghost lost: set<nat>)
      requires Core()
      ensures m.Core()
      ensures m == this.(lastAckBase := m.lastAckBase, dupAckCount := m.dupAckCount, states := m.states,
                         retransmitQueue := retransmitQueue + (if lossDetected then [base] else []),
                         retransmitSet := retransmitSet + lost)
      ensures m.lastAckBase == (if base > lastAckBase then base else lastAckBase)
      ensures m.dupAckCount == DupsAfter(base, anyNewlyAcked)
      ensures lossDetected <==> Duplicates(base, anyNewlyAcked) &&
                                FastLost(states, acked, retransmitSet, highestSentTimeAcked, base, m.dupAckCount)
      ensures lost == if lossDetected then {base} else {}
      ensures m.states == if lossDetected then states[base := states[base].(lastSent := None)] else states
      ensures lost <= InFlight() && lost !! acked && lost !! retransmitSet && toRemove' == toRemove + lost
    {
      m, toRemove', lossDetected, lost := this, toRemove, false, {};
      assert retransmitSet + {} == retransmitSet && retransmitQueue + [] == retransmitQueue;
      if base > lastAckBase {
        m := m.(lastAckBase := base, dupAckCount := 0);
      } else if anyNewlyAcked {
        m, toRemove', lossDetected, lost := HandleFastRetransmit(base, toRemove);
      }
    }

    method DetectLosses(base: nat, anyNewlyAcked: bool, toRemove: set<nat>)
      returns (m: Message, toRemove': set<nat>, lossDetected: bool, ghost lost: set<nat>)
      requires Core() && CumulativeOk()
      ensures m.Core()
      ensures m == this.(lastAckBase := m.lastAckBase, dupAckCount := m.dupAckCount,
                         retransmitQueue := m.retransmitQueue, retransmitSet := retransmitSet + lost,
                         states := m.states)
      ensures lost <= InFlight() && lost !! acked && lost !! retransmitSet
      ensures lost == LostTo(states, acked, retransmitSet, highestSentTimeAcked, base,
                             Duplicates(base, anyNewlyAcked), DupsAfter(base, anyNewlyAcked))
      ensures m.retransmitQueue
              == retransmitQueue + GivenUp(states, acked, retransmitSet, highestSentTimeAcked, base,
                                           Duplicates(base, anyNewlyAcked), DupsAfter(base, anyNewlyAcked))
      ensures m.lastAckBase == (if base > lastAckBase then base else lastAckBase)
      ensures m.dupAckCount == DupsAfter(base, anyNewlyAcked)
      ensures m.InFlight() == InFlight() - lost && m.Sent() == Sent() && Cleared(m.states, states, lost)
      ensures toRemove' == toRemove + lost
      ensures lossDetected <==> lost != {}
    {
      m, toRemove', lossDetected, lost := DetectFast(base, anyNewlyAcked, toRemove);
      FastThenHoles(states, m.states, acked, retransmitSet, highestSentTimeAcked, base,
                    Duplicates(base, anyNewlyAcked), DupsAfter(base, anyNewlyAcked));
      var any;
      ghost var holes, fast := {}, m;
      m, toRemove', any, holes := m.DetectLossesFromHoles(toRemove');
      LossesCompose(this, fast, m, lost, holes, toRemove);
      AppendTwice(retransmitQueue, if lossDetected then [base] else [],
                  HoleList(fast.states, acked, fast.retransmitSet, highestSentTimeAcked, |fast.states|));
      lossDetected, lost := lossDetected || any, lost + holes;
    }

    /** Drops the entries of `toRemove` from the in-flight queue, counting each fragment once. */
    method CleanupInFlightQueue(toRemove: set<nat>) returns (queue: seq<Flying>, removedBytes: nat)
      requires layout.Ok() && Within(Indices(inFlightQueue), layout.count)
      ensures queue == Retain(inFlightQueue, toRemove)
      ensures removedBytes == layout.Bytes(Indices(inFlightQueue) * toRemove)
    {
      queue, removedBytes := [], 0;
      var counted: set<nat> := {};
      layout.SumEmpty(layout.count);
      for k := 0 to |inFlightQueue|
        invariant counted == Indices(inFlightQueue[..k]) * toRemove
        invariant removedBytes == layout.Bytes(counted)
        invariant queue == Retain(inFlightQueue[..k], toRemove)
      {
        var e := inFlightQueue[k];
        IndicesMember(inFlightQueue, k);
        assert inFlightQueue[..k + 1] == inFlightQueue[..k] + [e];
        assert inFlightQueue[..k + 1][..k] == inFlightQueue[..k];
        IndicesPush(inFlightQueue[..k], e);
        CutStep(Indices(inFlightQueue[..k]), toRemove, e.idx);
        if e.idx in toRemove {
          if e.idx < layout.count && e.idx !in counted {
            layout.BytesAdd(counted, e.idx);
            counted := counted + {e.idx};
            removedBytes := removedBytes + layout.Len(e.idx);
          }
        } else {
          queue := queue + [e];
        }
      }
      assert inFlightQueue[..|inFlightQueue|] == inFlightQueue;
    }

    /** `retain` on the retransmit queue: what is acked leaves, the bit set is rebuilt. */
    method DropAckedRetransmits() returns (queue: seq<nat>, bits: set<nat>)
      requires Core()
      ensures Lists(queue, bits) && bits == retransmitSet - acked && queue == Unacked(retransmitQueue, acked)
    {
      queue, bits := [], {};
      QueuedWithin(retransmitQueue, retransmitSet, layout.count);
      for k := 0 to |retransmitQueue|
        invariant queue == Unacked(retransmitQueue[..k], acked) && bits == Elems(queue)
      {
        var idx := retransmitQueue[k];
        UnackedStep(retransmitQueue, k, acked);
        if idx < layout.count && idx !in acked {
          ElemsPush(queue, idx);
          queue := queue + [idx];
          bits := bits + {idx};
        }
      }
      assert retransmitQueue[..|retransmitQueue|] == retransmitQueue;
      ListsDrop(retransmitQueue, retransmitSet, acked);
      ListsMeans(queue, retransmitSet - acked);
    }

    /** Brings both queues back in line with the per-fragment state. */
    method Settle(anyNewlyAcked: bool, toRemove: set<nat>) returns (m: Message, completed: nat)
      requires Core() && InFlight() !! toRemove && Indices(inFlightQueue) == InFlight() + toRemove
      requires Within(InFlight(), layout.count) && Within(toRemove, layout.count)
      requires !anyNewlyAcked ==> retransmitSet !! acked
      ensures m.Core()
      ensures m == this.(retransmitQueue := m.retransmitQueue, retransmitSet := retransmitSet - acked,
                         inFlightQueue := m.inFlightQueue)
      ensures m.retransmitQueue == Unacked(retransmitQueue, acked) && m.inFlightQueue == Retain(inFlightQueue, toRemove)
      ensures Indices(m.inFlightQueue) == InFlight()
      ensures completed + layout.Bytes(InFlight()) == layout.Bytes(InFlight() + toRemove)
    {
      m, completed := this, 0;
      if anyNewlyAcked {
        var queue, bits := DropAckedRetransmits();
        m := m.(retransmitQueue := queue, retransmitSet := bits);
      } else {
        assert retransmitSet - acked == retransmitSet;
        ListsUnacked(retransmitQueue, retransmitSet, acked);
      }
      layout.SumEmpty(layout.count);
      assert Indices(inFlightQueue) * toRemove == toRemove;
      if toRemove != {} {
        var queue;
        RetainIndices(inFlightQueue, toRemove);
        queue, completed := m.CleanupInFlightQueue(toRemove);
        m := m.(inFlightQueue := queue);
      } else {
        RetainNothing(inFlightQueue);
      }
      layout.BytesUnion(InFlight(), toRemove);
    }

    /** The first half of an ACK: everything it covers becomes acked. */
    method AckCovered(base: nat, mask: Word, now: Instant)
      returns (m: Message, any: bool, delivered: nat, toRemove: set<nat>)
      requires Valid() && base < 65536
      ensures m.Core() && m.CumulativeOk()
      ensures m == this.(acked := acked + AckCover(base, mask, layout.count), ackedCount := m.ackedCount,
                         states := m.states, highestSentTimeAcked := m.highestSentTimeAcked, lastAckAt := now,
                         highestCumulativeAck := if highestCumulativeAck >= base then highestCumulativeAck else base)
      ensures any <==> m.acked != acked
      ensures m.Sent() == Sent() && m.InFlight() == InFlight() - (m.acked - acked)
      ensures toRemove == InFlight() * (m.acked - acked)
      ensures delivered == layout.Bytes((m.acked - acked) * Sent())
      ensures Cleared(m.states, states, m.acked - acked)
      ensures LatestSent(states, highestSentTimeAcked, m.acked - acked, m.highestSentTimeAcked)
    {
      var indices, cumulative := CollectAckedIndices(base, mask);
      forall x | x in indices ensures x < layout.count { ElemsMember(indices, x); }
      m, any, delivered, toRemove := AckAll(indices);
      m := m.(lastAckAt := now, highestCumulativeAck := cumulative);
      assert acked + Elems(indices) == acked + AckCover(base, mask, layout.count);
    }

    /** What the ACK that led to `m` gave up as lost. */
    ghost function LostIn(m: Message, base: nat): set<nat> {
      LostTo(states, m.acked, retransmitSet, m.highestSentTimeAcked, base,
             Duplicates(base, m.acked != acked), DupsAfter(base, m.acked != acked))
    }

    ghost function GivenIn(m: Message, base: nat): seq<nat> {
      GivenUp(states, m.acked, retransmitSet, m.highestSentTimeAcked, base,
              Duplicates(base, m.acked != acked), DupsAfter(base, m.acked != acked))
    }

    /** `m` is this message after a selective ACK: every field, both queues in order, and every fragment. */
    ghost predicate AckedBy(m: Message, base: nat, mask: Word, now: Instant) {
      var newly, lost := m.acked - acked, LostIn(m, base);
      && m == this.(acked := acked + AckCover(base, mask, layout.count), ackedCount := m.ackedCount,
                    highestCumulativeAck := if highestCumulativeAck >= base then highestCumulativeAck else base,
                    retransmitQueue := Unacked(retransmitQueue, m.acked) + GivenIn(m, base),
                    retransmitSet := retransmitSet + lost - m.acked,
                    inFlightQueue := Retain(inFlightQueue, newly + lost), states := m.states, lastAckAt := now,
                    lastAckBase := if base > lastAckBase then base else lastAckBase,
                    dupAckCount := DupsAfter(base, m.acked != acked), highestSentTimeAcked := m.highestSentTimeAcked)
      && Cleared(m.states, states, newly + lost)
      && LatestSent(states, highestSentTimeAcked, newly, m.highestSentTimeAcked)
    }

    /** The second half of an ACK: what is lost is given up, and both queues follow. */
    method Conclude(base: nat, anyNewlyAcked: bool, toRemove: set<nat>)
      returns (m: Message, completed: nat, lossDetected: bool, ghost lost: set<nat>)
      requires Core() && CumulativeOk() && InFlight() !! toRemove && Indices(inFlightQueue) == InFlight() + toRemove
      requires Within(InFlight() + toRemove, layout.count) && (!anyNewlyAcked ==> retransmitSet !! acked)
      ensures m.Core() && lost <= InFlight() && lost !! acked && lost !! retransmitSet && (lossDetected <==> lost != {})
      ensures lost == LostTo(states, acked, retransmitSet, highestSentTimeAcked, base,
                             Duplicates(base, anyNewlyAcked), DupsAfter(base, anyNewlyAcked))
      ensures m == this.(lastAckBase := if base > lastAckBase then base else lastAckBase,
                         dupAckCount := DupsAfter(base, anyNewlyAcked), states := m.states,
                         retransmitQueue := Unacked(retransmitQueue, acked)
                                            + GivenUp(states, acked, retransmitSet, highestSentTimeAcked, base,
                                                      Duplicates(base, anyNewlyAcked), DupsAfter(base, anyNewlyAcked)),
                         retransmitSet := retransmitSet + lost - acked,
                         inFlightQueue := Retain(inFlightQueue, toRemove + lost))
      ensures Cleared(m.states, states, lost) && m.InFlight() == InFlight() - lost && m.Sent() == Sent()
      ensures Indices(m.inFlightQueue) == m.InFlight()
      ensures completed + layout.Bytes(m.InFlight()) == layout.Bytes(InFlight() + toRemove)
    {
      var removed;
      m, removed, lossDetected, lost := DetectLosses(base, anyNewlyAcked, toRemove);
      GivenUpStays(retransmitQueue, states, acked, retransmitSet, highestSentTimeAcked, base,
                   Duplicates(base, anyNewlyAcked), DupsAfter(base, anyNewlyAcked));
      assert m.InFlight() + removed == InFlight() + toRemove;
      m, completed := m.Settle(anyNewlyAcked, removed);
    }

    /**
     One selective ACK.  Exactly the covered fragments become acked, and the bytes
     reported as completed are exactly the bytes that left the flight.
     */
    method OnAck(base: nat, mask: Word, now: Instant) returns (m: Message, res: AckResult, ghost lost: set<nat>)
      requires Valid() && base < 65536
      ensures m.Valid() && AckedBy(m, base, mask, now) && lost == LostIn(m, base)
      ensures m.acked == acked + AckCover(base, mask, layout.count)
      ensures lost <= InFlight() && lost !! m.acked && lost <= m.retransmitSet
      ensures m.InFlight() == InFlight() - (m.acked - acked) - lost && m.Sent() == Sent()
      ensures res.completed + m.InFlightBytes() == InFlightBytes()
      ensures res.delivered == layout.Bytes((m.acked - acked) * Sent())
      ensures res.lossDetected <==> lost != {}
    {
      var anyNewlyAcked, delivered, toRemove;
      m, anyNewlyAcked, delivered, toRemove := AckCovered(base, mask, now);
      ghost var covered := m;
      forall i | i in InFlight() ensures i < layout.count { StatesMember(states, i); }
      assert m.InFlight() + toRemove == InFlight();
      var completed, lossDetected;
      m, completed, lossDetected, lost := m.Conclude(base, anyNewlyAcked, toRemove);
      AckComposes(covered, m, base, lost, toRemove);
      res := AckResult(delivered, completed, lossDetected);
    }

    /** What the second half does to the fragments covered is what it does to this message. */
    lemma AckComposes(covered: Message, m: Message, base: nat, lost: set<nat>, toRemove: set<nat>)
      requires Valid() && m.acked == covered.acked && acked <= m.acked
      requires covered.retransmitSet == retransmitSet && covered.highestSentTimeAcked == m.highestSentTimeAcked
      requires Cleared(covered.states, states, m.acked - acked) && Cleared(m.states, covered.states, lost)
      requires toRemove == InFlight() * (m.acked - acked)
      ensures Cleared(m.states, states, (m.acked - acked) + lost)
      ensures Retain(inFlightQueue, toRemove + lost) == Retain(inFlightQueue, (m.acked - acked) + lost)
      ensures LostIn(m, base) == LostTo(covered.states, m.acked, retransmitSet, m.highestSentTimeAcked, base,
                                        Duplicates(base, m.acked != acked), DupsAfter(base, m.acked != acked))
      ensures GivenIn(m, base) == GivenUp(covered.states, m.acked, retransmitSet, m.highestSentTimeAcked, base,
                                          Duplicates(base, m.acked != acked), DupsAfter(base, m.acked != acked))
    {
      ClearedTwice(states, covered.states, m.states, m.acked - acked, lost);
      RetainSame(inFlightQueue, toRemove + lost, (m.acked - acked) + lost);
      LostSame(states, covered.states, m.acked - acked, m.acked, retransmitSet, m.highestSentTimeAcked, base,
               Duplicates(base, m.acked != acked), DupsAfter(base, m.acked != acked));
    }

    /** One index of a NACK: out of the flight, into the retransmit queue unless it is there already. */
    method NackOne(idx: nat) returns (m: Message, removed: nat)
      requires Core() && idx < layout.count && idx !in acked
      ensures m.Core()
      ensures m == this.(states := m.states, retransmitQueue := m.retransmitQueue,
                         retransmitSet := retransmitSet + {idx})
      ensures m.retransmitQueue == Requeue(retransmitQueue, idx)
      ensures m.InFlight() == InFlight() - {idx} && m.Sent() == Sent() && Cleared(m.states, states, {idx})
      ensures removed + m.InFlightBytes() == InFlightBytes()
    {
      m, removed := this, 0;
      StatesMember(states, idx);
      ListsMember(retransmitQueue, retransmitSet, idx);
      if states[idx].lastSent.Some? {
        StatesUpdate(states, layout, idx, states[idx].(lastSent := None));
        m := m.(states := states[idx := states[idx].(lastSent := None)]);
        assert m.Sent() == Sent();
        layout.BytesRemove(InFlight(), idx);
        removed := layout.Len(idx);
      } else {
        assert InFlight() - {idx} == InFlight();
      }
      if idx !in retransmitSet {
        ListsPush(retransmitQueue, retransmitSet, idx);
        m := m.(retransmitQueue := retransmitQueue + [idx], retransmitSet := retransmitSet + {idx});
      } else {
        assert retransmitSet + {idx} == retransmitSet;
      }
    }

    /** `m` is this message after the indices in `done` of a NACK. */
    ghost predicate NackedInto(m: Message, done: seq<nat>)
      requires Core()
    {
      var wanted := Wanted(done, layout.count, acked);
      && m.Core()
      && m == this.(states := m.states, retransmitQueue := Requeued(retransmitQueue, done, layout.count, acked),
                    retransmitSet := retransmitSet + wanted)
      && m.InFlight() == InFlight() - wanted && m.Sent() == Sent() && Cleared(m.states, states, wanted)
    }

    /** One more index of a NACK; `hit` if the fragment was in flight. */
    method NackNext(m: Message, missing: seq<nat>, k: nat) returns (m': Message, removed: nat, named: bool, hit: bool)
      requires Core() && k < |missing| && NackedInto(m, missing[..k])
      ensures NackedInto(m', missing[..k + 1]) && removed + m'.InFlightBytes() == m.InFlightBytes()
      ensures named <==> missing[k] < layout.count && missing[k] !in acked
      ensures hit <==> named && missing[k] in m.InFlight()
    {
      var idx := missing[k];
      m', removed, named, hit := m, 0, !m.IsAcked(idx), false;
      WantedStep(missing, k, layout.count, acked);
      RequeuedStep(retransmitQueue, missing, k, layout.count, acked);
      ghost var wanted := Wanted(missing[..k], layout.count, acked);
      if named {
        StatesMember(m.states, idx);
        hit := m.states[idx].lastSent.Some?;
        m', removed := m.NackOne(idx);
        ClearedTwice(states, m.states, m'.states, wanted, {idx});
        NackStep(InFlight(), retransmitSet, wanted, idx);
      } else {
        assert wanted + {} == wanted;
      }
    }

    /** A NACK: exactly the named unacked fragments leave the flight and are queued again. */
    method OnNack(missing: seq<nat>) returns (m: Message, completed: nat, triggered: bool)
      requires Valid()
      ensures m.Valid()
      ensures var wanted := Wanted(missing, layout.count, acked);
              && m == this.(states := m.states, inFlightQueue := Retain(inFlightQueue, wanted),
                            retransmitQueue := Requeued(retransmitQueue, missing, layout.count, acked),
                            retransmitSet := retransmitSet + wanted)
              && m.InFlight() == InFlight() - wanted && m.Sent() == Sent() && Cleared(m.states, states, wanted)
              && (triggered <==> wanted != {})
      ensures completed + m.InFlightBytes() == InFlightBytes()
    {
      var toRemove;
      m, completed, triggered, toRemove := NackAll(missing);
      m := RetainFlying(m, toRemove, Wanted(missing, layout.count, acked));
    }

    /** The loop over the indices of a NACK. */
    method NackAll(missing: seq<nat>) returns (m: Message, completed: nat, triggered: bool, toRemove: set<nat>)
      requires Core()
      ensures NackedInto(m, missing) && toRemove == InFlight() * Wanted(missing, layout.count, acked)
      ensures completed + m.InFlightBytes() == InFlightBytes()
      ensures triggered <==> Wanted(missing, layout.count, acked) != {}
    {
      m, completed, triggered, toRemove := this, 0, false, {};
      assert retransmitSet + {} == retransmitSet && InFlight() - {} == InFlight();
      for k := 0 to |missing|
        invariant NackedInto(m, missing[..k])
        invariant toRemove == InFlight() * Wanted(missing[..k], layout.count, acked)
        invariant completed + m.InFlightBytes() == InFlightBytes()
        invariant triggered <==> Wanted(missing[..k], layout.count, acked) != {}
      {
        ghost var wanted := Wanted(missing[..k], layout.count, acked);
        WantedStep(missing, k, layout.count, acked);
        NackStep(InFlight(), retransmitSet, wanted, missing[k]);
        var removed, named, hit;
        m, removed, named, hit := NackNext(m, missing, k);
        if hit { toRemove := toRemove + {missing[k]}; }
        completed, triggered := completed + removed, triggered || named;
      }
      assert missing[..|missing|] == missing;
    }

    /** Takes what left the flight out of its queue. */
    method RetainFlying(m: Message, toRemove: set<nat>, ghost wanted: set<nat>) returns (m': Message)
      requires toRemove == Indices(inFlightQueue) * wanted && m.inFlightQueue == inFlightQueue
      ensures m' == m.(inFlightQueue := Retain(inFlightQueue, wanted))
      ensures Indices(m'.inFlightQueue) == Indices(inFlightQueue) - wanted
    {
      m' := m;
      RetainSame(inFlightQueue, toRemove, wanted);
      RetainIndices(inFlightQueue, wanted);
      RetainNothing(inFlightQueue);
      if toRemove != {} { m' := m.(inFlightQueue := Retain(inFlightQueue, toRemove)); }
    }

    /** The loop of `cleanup` over the fragments of a timed-out message. */
    method FlightBytes() returns (bytes: nat)
      requires Valid()
      ensures bytes == InFlightBytes()
    {
      bytes := 0;
      for idx := 0 to |states|
        invariant bytes == layout.Sum(InFlight(), idx)
      {
        StatesMember(states, idx);
        if states[idx].lastSent.Some? { bytes := bytes + layout.Len(idx); }
      }
    }
  }

  /** `retain` on the retransmit queue. */
  function Unacked(q: seq<nat>, acked: set<nat>): seq<nat> {
    if q == [] then []
    else Unacked(q[..|q| - 1], acked) + if q[|q| - 1] in acked then [] else [q[|q| - 1]]
  }

  lemma UnackedStep(q: seq<nat>, k: nat, acked: set<nat>)
    requires k < |q|
    ensures Unacked(q[..k + 1], acked) == Unacked(q[..k], acked) + if q[k] in acked then [] else [q[k]]
  {
    assert q[..k + 1][..k] == q[..k];
  }

  lemma QueuedWithin(q: seq<nat>, s: set<nat>, n: nat)
    requires Lists(q, s) && Within(s, n)
    ensures forall i | 0 <= i < |q| :: q[i] < n
  {
    forall i | 0 <= i < |q| ensures q[i] < n { ListsMember(q, s, q[i]); }
  }

  lemma ElemsPush(q: seq<nat>, x: nat)
    ensures Elems(q + [x]) == Elems(q) + {x}
  {
    assert (q + [x])[..|q|] == q;
  }

  /** Dropping entries from a list drops them from its set. */
  lemma {:induction false} ListsDrop(q: seq<nat>, s: set<nat>, acked: set<nat>)
    requires Lists(q, s)
    ensures Lists(Unacked(q, acked), s - acked)
  {
    if q != [] {
      var init, x := q[..|q| - 1], q[|q| - 1];
      ListsDrop(init, s - {x}, acked);
      if x in acked {
        assert Unacked(q, acked) == Unacked(init, acked) && s - acked == s - {x} - acked;
      } else {
        ListsPush(Unacked(init, acked), s - {x} - acked, x);
        assert s - {x} - acked + {x} == s - acked;
      }
    }
  }

  lemma {:induction false} UnackedConcat(p: seq<nat>, q: seq<nat>, acked: set<nat>)
    ensures Unacked(p + q, acked) == Unacked(p, acked) + Unacked(q, acked)
  {
    if q == [] {
      assert p + q == p;
    } else {
      UnackedConcat(p, q[..|q| - 1], acked);
      assert (p + q)[..|p + q| - 1] == p + q[..|q| - 1];
    }
  }

  lemma {:induction false} UnackedAll(q: seq<nat>, acked: set<nat>)
    requires forall x | x in q :: x !in acked
    ensures Unacked(q, acked) == q
  {
    if q != [] {
      UnackedAll(q[..|q| - 1], acked);
      assert q == q[..|q| - 1] + [q[|q| - 1]];
    }
  }

  lemma ListsUnacked(q: seq<nat>, s: set<nat>, acked: set<nat>)
    requires Lists(q, s) && s !! acked
    ensures Unacked(q, acked) == q
  {
    ListsMeans(q, s);
    forall x | x in q ensures x !in acked { ElemsMember(q, x); }
    UnackedAll(q, acked);
  }

  lemma {:induction false} HoleListMembers(states: seq<FragmentState>, acked: set<nat>, queued: set<nat>,
                                           latest: Option<Instant>, n: nat, x: nat)
    requires n <= |states| && x in HoleList(states, acked, queued, latest, n)
    ensures x !in acked
  {
    if n > 0 && x in HoleList(states, acked, queued, latest, n - 1) {
      HoleListMembers(states, acked, queued, latest, n - 1, x);
    }
  }

  /** What is given up is unacked, so dropping acked entries leaves it alone. */
  lemma GivenUpStays(q: seq<nat>, states: seq<FragmentState>, acked: set<nat>, queued: set<nat>,
                     latest: Option<Instant>, base: nat, duplicate: bool, dups: nat)
    ensures var given := GivenUp(states, acked, queued, latest, base, duplicate, dups);
            Unacked(q + given, acked) == Unacked(q, acked) + given
  {
    var given := GivenUp(states, acked, queued, latest, base, duplicate, dups);
    forall x | x in given ensures x !in acked {
      if x in HoleList(states, acked, queued, latest, |states|) {
        HoleListMembers(states, acked, queued, latest, |states|, x);
      }
      if x in HoleList(states, acked, queued + {base}, latest, |states|) {
        HoleListMembers(states, acked, queued + {base}, latest, |states|, x);
      }
    }
    UnackedConcat(q, given, acked);
    UnackedAll(given, acked);
  }

  lemma {:induction false} RetainNothing(q: seq<Flying>)
    ensures Retain(q, {}) == q
  {
    if q != [] { RetainNothing(q[..|q| - 1]); }
  }

  lemma {:induction false} RetainSame(q: seq<Flying>, cut: set<nat>, cut': set<nat>)
    requires forall x | x in Indices(q) :: x in cut <==> x in cut'
    ensures Retain(q, cut) == Retain(q, cut')
  {
    if q != [] { RetainSame(q[..|q| - 1], cut, cut'); }
  }

  /** `retain` keeps the order: it acts on the parts of a queue one by one. */
  lemma {:induction false} RetainConcat(p: seq<Flying>, q: seq<Flying>, cut: set<nat>)
    ensures Retain(p + q, cut) == Retain(p, cut) + Retain(q, cut)
  {
    if q == [] {
      assert p + q == p;
    } else {
      var init, e := q[..|q| - 1], q[|q| - 1];
      RetainConcat(p, init, cut);
      assert p + q == (p + init) + [e];
      RetainPush(p + init, e, cut);
    }
  }

  lemma RetainPush(q: seq<Flying>, e: Flying, cut: set<nat>)
    ensures Retain(q + [e], cut) == Retain(q, cut) + if e.idx in cut then [] else [e]
  {
    assert (q + [e])[..|q|] == q;
  }

  /** `retain` on the in-flight queue. */
  function Retain(q: seq<Flying>, cut: set<nat>): seq<Flying> {
    if q == [] then []
    else Retain(q[..|q| - 1], cut) + if q[|q| - 1].idx in cut then [] else [q[|q| - 1]]
  }

  lemma {:induction false} RetainIndices(q: seq<Flying>, cut: set<nat>)
    ensures Indices(Retain(q, cut)) == Indices(q) - cut
  {
    if q != [] {
      var p, e := q[..|q| - 1], q[|q| - 1];
      RetainIndices(p, cut);
      IndicesPush(Retain(p, cut), e);
      CutStep(Indices(p), cut, e.idx);
      assert Retain(p, cut) + [] == Retain(p, cut);
    }
  }

  method NewMessage(size: nat, mtu: nat, now: Instant) returns (r: Option<Message>)
    requires mtu > 0
    ensures r.None? <==> FragmentCount(size, mtu) > MAX_FRAGMENTS_PER_MESSAGE
    ensures r.Some? ==>
      && r.value.Valid() && r.value.Honest() && r.value.layout == Layout(size, mtu, FragmentCount(size, mtu))
      && r.value.acked == {} && r.value.nextFragment == 0 && r.value.InFlight() == {} && r.value.InFlightBytes() == 0
      && r.value.retransmitQueue == [] && r.value.inFlightQueue == []
      && r.value.lastAckAt == now && r.value.timeout == 30
  {
    var n := FragmentCount(size, mtu);
    if n > MAX_FRAGMENTS_PER_MESSAGE { return None; }
    var m := Message(Layout(size, mtu, n), {}, 0, 0, 0, [], {}, [], seq(n, i => FragmentState(None, None, 0, 0)),
                     now, 30, 0, 0, None);
    LayoutOk(size, mtu);
    m.layout.SumEmpty(n);
    forall i: nat ensures i !in m.InFlight() && i !in m.Sent() { StatesMember(m.states, i); }
    CountInConst({}, 0, n, false);
    return Some(m);
  }

  lemma FreshBytes(l: Layout, fresh': set<nat>, sent: set<nat>, i: nat)
    requires l.Ok() && i !in fresh'
    ensures l.Bytes((fresh' + {i}) * sent) == l.Bytes(fresh' * sent) + if i in sent then l.Len(i) else 0
  {
    if i in sent {
      l.BytesAdd(fresh' * sent, i);
      assert (fresh' + {i}) * sent == fresh' * sent + {i};
    } else {
      assert (fresh' + {i}) * sent == fresh' * sent;
    }
  }
}
