/**
 The fragments of one message as values: what is stored, what memory it is planned to take,
 and what becomes of a message as its fragments arrive.  `Reassembly` holds the objects
 that are proved to work this way.
 */
module Contents {
  import opened Wrappers
  import opened Protocol
  import opened Bytes
  import opened Outgoing

  /** `Option<Vec<u8>>` of 24 bytes and 32 bytes of estimated heap overhead. */
  const PER_FRAGMENT_OVERHEAD: nat := 56

  type Fragments = seq<Option<seq<Byte>>>

  /** The bytes stored. */
  function Stored(f: Fragments): nat {
    if f == [] then 0 else Stored(f[..|f| - 1]) + if f[|f| - 1].Some? then |f[|f| - 1].value| else 0
  }

  /** How many fragments there are. */
  function Present(f: Fragments): nat {
    if f == [] then 0 else Present(f[..|f| - 1]) + if f[|f| - 1].Some? then 1 else 0
  }

  /** The length of the longest fragment. */
  function Longest(f: Fragments): Option<nat> {
    if f == [] then None else Longer(Longest(f[..|f| - 1]), f[|f| - 1])
  }

  function Longer(n: Option<nat>, data: Option<seq<Byte>>): Option<nat> {
    if data.Some? && (n.None? || |data.value| > n.value) then Some(|data.value|) else n
  }

  /** The fragments there are, one behind the other. */
  function Joined(f: Fragments): seq<Byte> {
    if f == [] then [] else Joined(f[..|f| - 1]) + if f[|f| - 1].Some? then f[|f| - 1].value else []
  }

  predicate Whole(f: Fragments) { forall i | 0 <= i < |f| :: f[i].Some? }

  /** `planned_total_size`: as if the fragments to come were as long as the longest before the last. */
  function Planned(f: Fragments): nat
    requires f != []
  {
    var n, longest, last := |f|, Longest(f[..|f| - 1]), f[|f| - 1];
    var full := if longest.Some? then longest.value else ESTIMATED_PAYLOAD_SIZE;
    var planned := (n - 1) * full + (if last.Some? then |last.value| else full) + n * PER_FRAGMENT_OVERHEAD;
    var inUse := Stored(f) + Present(f) * PER_FRAGMENT_OVERHEAD;
    if planned >= inUse then planned else inUse
  }

  datatype Answer = Refused | Held(fragments: Fragments, complete: bool)

  /**
   `add_fragment` of the reassembler: its size test comes first, also for a fragment that is
   there already; the first copy of each fragment counts.
   */
  function Accept(f: Fragments, index: nat, data: seq<Byte>): Answer {
    if Stored(f) + |data| > MAX_MESSAGE_SIZE || index >= |f| then Refused
    else
      var g := if f[index].None? then f[index := Some(data)] else f;
      Held(g, Whole(g))
  }

  // ------------------------------------------------------- one fragment more

  lemma {:induction false} StoredAdd(f: Fragments, i: nat, data: seq<Byte>)
    requires i < |f| && f[i].None?
    ensures Stored(f[i := Some(data)]) == Stored(f) + |data|
    ensures Present(f[i := Some(data)]) == Present(f) + 1
  {
    var n := |f| - 1;
    if i < n {
      StoredAdd(f[..n], i, data);
      assert f[i := Some(data)][..n] == f[..n][i := Some(data)];
    } else {
      assert f[i := Some(data)][..n] == f[..n];
    }
  }

  lemma {:induction false} LongestAdd(f: Fragments, i: nat, data: seq<Byte>)
    requires i < |f| && f[i].None?
    ensures Longest(f[i := Some(data)]) == Longer(Longest(f), Some(data))
  {
    var n := |f| - 1;
    if i < n {
      LongestAdd(f[..n], i, data);
      assert f[i := Some(data)][..n] == f[..n][i := Some(data)];
    } else {
      assert f[i := Some(data)][..n] == f[..n];
    }
  }

  lemma {:induction false} NoneStored(f: Fragments)
    requires forall i | 0 <= i < |f| :: f[i].None?
    ensures Stored(f) == 0 && Present(f) == 0 && Longest(f) == None
  {
    if f != [] { NoneStored(f[..|f| - 1]); }
  }

  lemma {:induction false} PresentIsCount(f: Fragments, s: set<nat>)
    requires forall i: nat | i < |f| :: i in s <==> f[i].Some?
    ensures Present(f) == CountIn(s, 0, |f|)
  {
    if f != [] {
      PresentIsCount(f[..|f| - 1], s);
      CountInNext(s, |f| - 1, |f|);
    }
  }

  // ------------------------------------------------------- fragments cut from a payload

  /** Every fragment stored is the one cut from the payload. */
  ghost predicate Carries(f: Fragments, payload: seq<Byte>, l: Layout)
    requires l.Ok() && l.size == |payload|
  {
    forall i | 0 <= i < |f| && f[i].Some? :: f[i].value == Fragment(payload, l, i)
  }

  lemma {:induction false} JoinedIsConcat(f: Fragments, payload: seq<Byte>, l: Layout, n: nat)
    requires l.Ok() && l.size == |payload| && n <= |f| && |f| <= l.count && Carries(f, payload, l) && Whole(f)
    ensures Joined(f[..n]) == Concat(payload, l, n)
  {
    if n > 0 {
      JoinedIsConcat(f, payload, l, n - 1);
      assert f[..n][..n - 1] == f[..n - 1];
    }
  }

  lemma JoinedIsPayload(f: Fragments, payload: seq<Byte>, l: Layout)
    requires l.Ok() && l.size == |payload| && |f| == l.count && Carries(f, payload, l) && Whole(f)
    requires Concat(payload, l, l.count) == payload
    ensures Joined(f) == payload
  {
    JoinedIsConcat(f, payload, l, l.count);
    assert f[..l.count] == f;
  }

  /** A fragment of the payload keeps the contents fragments of it; once complete they are the payload. */
  lemma AcceptCarries(f: Fragments, payload: seq<Byte>, l: Layout, index: nat)
    requires l.Ok() && l.size == |payload| && |f| == l.count && Carries(f, payload, l)
    requires Concat(payload, l, l.count) == payload
    ensures var answer := Accept(f, index, Fragment(payload, l, index));
            answer.Held? ==>
              && |answer.fragments| == l.count && Carries(answer.fragments, payload, l)
              && (answer.complete ==> Joined(answer.fragments) == payload)
  {
    var answer := Accept(f, index, Fragment(payload, l, index));
    if answer.Held? && answer.complete { JoinedIsPayload(answer.fragments, payload, l); }
  }

  /** A layout that is not cut to 16 bits. */
  lemma SoundLayout(payload: seq<Byte>, mtu: nat, total: nat)
    requires mtu > 0 && total == CeilDiv(|payload|, mtu) <= MAX_FRAGMENTS_PER_MESSAGE
    ensures var l := Layout(|payload|, mtu, total); l.Ok() && Concat(payload, l, l.count) == payload
  {
    SmallCount(total);
    assert FragmentCount(|payload|, mtu) == total;
    FragmentationIsLossless(payload, mtu);
  }

  lemma SmallCount(n: nat)
    requires n < 65536
    ensures n % 65536 == n
  {
  }

  lemma {:induction false} WholeCounts(f: Fragments)
    requires Whole(f)
    ensures Stored(f) == |Joined(f)| && Present(f) == |f|
  {
    if f != [] { WholeCounts(f[..|f| - 1]); }
  }

  lemma {:induction false} LongestIs(f: Fragments, n: nat)
    requires Whole(f) && f != [] && forall i | 0 <= i < |f| :: |f[i].value| == n
    ensures Longest(f) == Some(n)
  {
    if |f| > 1 { LongestIs(f[..|f| - 1], n); } else { assert f[..0] == []; }
  }

  lemma {:induction false} UseBound(f: Fragments, m: nat)
    requires forall i | 0 <= i < |f| && f[i].Some? :: |f[i].value| <= m
    ensures Stored(f) + Present(f) * PER_FRAGMENT_OVERHEAD <= |f| * (m + PER_FRAGMENT_OVERHEAD)
    ensures Longest(f).Some? ==> Longest(f).value <= m
  {
    if f != [] {
      UseBound(f[..|f| - 1], m);
      NextStart(|f| - 1, m + PER_FRAGMENT_OVERHEAD);
    }
  }

  /** However few fragments are there, no more is planned than for all of the greatest length. */
  lemma PlannedBound(f: Fragments, m: nat)
    requires f != [] && m >= ESTIMATED_PAYLOAD_SIZE
    requires forall i | 0 <= i < |f| && f[i].Some? :: |f[i].value| <= m
    ensures Planned(f) <= |f| * (m + PER_FRAGMENT_OVERHEAD)
  {
    var n, longest := |f|, Longest(f[..|f| - 1]);
    var full := if longest.Some? then longest.value else ESTIMATED_PAYLOAD_SIZE;
    UseBound(f, m);
    UseBound(f[..n - 1], m);
    FullBound(n, full, m);
  }

  /** What is planned covers what is in use, and for one fragment to come the length of the longest. */
  lemma PlannedCovers(f: Fragments)
    requires f != []
    ensures Planned(f) >= Stored(f) + Present(f) * PER_FRAGMENT_OVERHEAD
    ensures f[|f| - 1].None? && Longest(f[..|f| - 1]).Some? ==>
              Planned(f) >= |f| * (Longest(f[..|f| - 1]).value + PER_FRAGMENT_OVERHEAD)
  {
    var longest := Longest(f[..|f| - 1]);
    if longest.Some? { AllFull(|f|, longest.value); }
  }

  lemma AllFull(n: nat, full: nat)
    requires n >= 1
    ensures (n - 1) * full + full + n * PER_FRAGMENT_OVERHEAD == n * (full + PER_FRAGMENT_OVERHEAD)
  {
    NextStart(n - 1, full);
  }

  lemma FullBound(n: nat, full: nat, m: nat)
    requires n >= 1 && full <= m
    ensures (n - 1) * full + m + n * PER_FRAGMENT_OVERHEAD <= n * (m + PER_FRAGMENT_OVERHEAD)
  {
    assert (n - 1) * full <= (n - 1) * m;
    NextStart(n - 1, m);
    assert n * (m + PER_FRAGMENT_OVERHEAD) == n * m + n * PER_FRAGMENT_OVERHEAD;
  }

  /** All fragments but the last are full, and the last ends the payload. */
  lemma FullFragments(l: Layout, i: nat)
    requires l.Ok() && i < l.count && l.Start(l.count) >= l.size
    ensures i < l.count - 1 ==> l.Len(i) == l.mtu
    ensures i == l.count - 1 ==> l.Start(i) + l.Len(i) == l.size
  {
    NextStart(i, l.mtu);
    if i < l.count - 1 { assert l.Start(i + 1) < l.size; }
  }

  /** A complete message is planned at its size and the overhead of its fragments, whatever came first. */
  lemma PlannedWhole(f: Fragments, payload: seq<Byte>, l: Layout)
    requires l.Ok() && l.size == |payload| && |f| == l.count >= 1 && Carries(f, payload, l) && Whole(f)
    requires Concat(payload, l, l.count) == payload
    ensures Planned(f) == |payload| + l.count * PER_FRAGMENT_OVERHEAD
  {
    var n, front := |f|, f[..|f| - 1];
    JoinedIsPayload(f, payload, l);
    WholeCounts(f);
    LosslessReaches(payload, l);
    forall i | 0 <= i < |front| ensures |front[i].value| == l.mtu { FullFragments(l, i); }
    FullFragments(l, n - 1);
    if n > 1 { LongestIs(front, l.mtu); }
    assert |f[n - 1].value| == l.Len(n - 1);
    assert l.Start(n - 1) == (n - 1) * l.mtu;
  }

  lemma LosslessReaches(payload: seq<Byte>, l: Layout)
    requires l.Ok() && l.size == |payload| && Concat(payload, l, l.count) == payload
    ensures l.Start(l.count) >= l.size
  {
    ConcatIsPrefix(payload, l, l.count);
  }

  // ------------------------------------------------------- arrivals

  /** The indices of the fragments stored. */
  ghost function Arrived(f: Fragments): set<nat> { set i: nat | i < |f| && f[i].Some? }

  lemma {:induction false} StoredIsBytes(f: Fragments, payload: seq<Byte>, l: Layout, s: set<nat>)
    requires l.Ok() && l.size == |payload| && |f| <= l.count && Carries(f, payload, l)
    requires forall i: nat | i < |f| :: i in s <==> f[i].Some?
    ensures Stored(f) == l.Sum(s, |f|)
  {
    if f != [] { StoredIsBytes(f[..|f| - 1], payload, l, s); }
  }

  /** What the reassembler answers to a fragment of the payload, in terms of the indices that have arrived. */
  lemma AcceptMeans(f: Fragments, payload: seq<Byte>, l: Layout, i: nat)
    requires l.Ok() && l.size == |payload| && |f| == l.count && Carries(f, payload, l)
    ensures var answer := Accept(f, i, Fragment(payload, l, i));
            && (answer.Refused? <==> l.Bytes(Arrived(f)) + l.Len(i) > MAX_MESSAGE_SIZE || i >= l.count)
            && (answer.Held? ==>
                && |answer.fragments| == l.count && Carries(answer.fragments, payload, l)
                && Arrived(answer.fragments) == Arrived(f) + {i}
                && (answer.complete <==> All(l, Arrived(f) + {i})))
  {
    StoredIsBytes(f, payload, l, Arrived(f));
    assert |Fragment(payload, l, i)| == l.Len(i);
    if i < l.count {
      var g := if f[i].None? then f[i := Some(Fragment(payload, l, i))] else f;
      assert Arrived(g) == Arrived(f) + {i};
      assert Whole(g) <==> All(l, Arrived(g));
    }
  }

  /** What becomes of a message: it is complete, it is refused and lost, or it waits for more. */
  datatype Fate = Done | Lost | Waiting

  ghost function FateOf(l: Layout, got: set<nat>, arrivals: seq<nat>): Fate
    requires l.Ok()
    decreases |arrivals|
  {
    if arrivals == [] then Waiting
    else
      var i, rest := arrivals[0], arrivals[1..];
      if l.Bytes(got) + l.Len(i) > MAX_MESSAGE_SIZE || i >= l.count then Lost
      else if All(l, got + {i}) then Done
      else FateOf(l, got + {i}, rest)
  }

  /**
   The same in a session: what is left of a refused message is dropped, and the next fragment opens
   it `again` or is ignored.
   */
  ghost function SessionFate(l: Layout, got: set<nat>, arrivals: seq<nat>, again: bool): Fate
    requires l.Ok()
    decreases |arrivals|
  {
    if arrivals == [] then Waiting
    else
      var i, rest := arrivals[0], arrivals[1..];
      if l.Bytes(got) + l.Len(i) > MAX_MESSAGE_SIZE || i >= l.count then
        if again then SessionFate(l, {}, rest, again) else Lost
      else if All(l, got + {i}) then Done
      else SessionFate(l, got + {i}, rest, again)
  }

  /** A session delivers whatever one reassembler completes; one that does not reopen delivers nothing else. */
  lemma {:induction false} SessionCompletes(l: Layout, got: set<nat>, arrivals: seq<nat>, again: bool)
    requires l.Ok()
    ensures FateOf(l, got, arrivals) == Done ==> SessionFate(l, got, arrivals, again) == Done
    ensures !again ==> SessionFate(l, got, arrivals, again) == FateOf(l, got, arrivals)
    decreases |arrivals|
  {
    if arrivals != [] { SessionCompletes(l, got + {arrivals[0]}, arrivals[1..], again); }
  }

  ghost predicate All(l: Layout, got: set<nat>) { forall i: nat | i < l.count :: i in got }

  /** Every fragment arrives, and nothing else. */
  ghost predicate Covers(l: Layout, arrivals: seq<nat>) {
    && (forall i: nat | i < l.count :: i in arrivals)
    && forall k | 0 <= k < |arrivals| :: arrivals[k] < l.count
  }

  /** No arrival of a fragment, the first or a repeated one, can hit the size limit. */
  predicate Reliable(l: Layout) {
    l.size <= MAX_MESSAGE_SIZE && (l.count == 1 || l.count * l.mtu <= MAX_MESSAGE_SIZE)
  }

  lemma {:induction false} SumMonotone(l: Layout, s: set<nat>, t: set<nat>, n: nat)
    requires l.Ok() && s <= t
    ensures l.Sum(s, n) <= l.Sum(t, n)
  {
    if n > 0 { SumMonotone(l, s, t, n - 1); }
  }

  /** The first `n` fragments together. */
  lemma {:induction false} SumAll(l: Layout, s: set<nat>, n: nat)
    requires l.Ok() && n <= l.count && forall i: nat | i < n :: i in s
    ensures l.Sum(s, n) == if l.Start(n) <= l.size then l.Start(n) else l.size
  {
    if n > 0 {
      SumAll(l, s, n - 1);
      FragmentEnd(l, n);
    }
  }

  /** A fragment that is not there yet fits as long as the payload does. */
  lemma NewFits(l: Layout, got: set<nat>, i: nat)
    requires l.Ok() && l.Start(l.count) >= l.size && i < l.count && i !in got
    ensures l.Bytes(got) + l.Len(i) <= l.size && (All(l, got + {i}) ==> l.Bytes(got) + l.Len(i) == l.size)
  {
    l.BytesAdd(got, i);
    var all := got + {i} + First(l.count);
    SumMonotone(l, got + {i}, all, l.count);
    SumAll(l, all, l.count);
    if All(l, got + {i}) { SumAll(l, got + {i}, l.count); }
  }

  ghost function First(n: nat): (s: set<nat>)
    ensures forall i: nat :: i in s <==> i < n
  {
    if n == 0 then {} else First(n - 1) + {n - 1}
  }

  /** A repeated fragment fits while another one is missing, if all of full length would. */
  lemma RepeatedFits(l: Layout, got: set<nat>, i: nat, missing: nat)
    requires l.Ok() && l.Start(l.count) >= l.size && Reliable(l)
    requires i in got && i < l.count && missing !in got && missing < l.count
    ensures l.Bytes(got) + l.Len(i) <= MAX_MESSAGE_SIZE
  {
    NewFits(l, got, missing);
    FullFragments(l, missing);
    if missing == l.count - 1 {
      NextStart(missing, l.mtu);
      assert l.Len(i) <= l.mtu;
    }
  }

  /** With a reliable layout, every list of arrivals that lacks nothing completes the message. */
  lemma {:induction false} ReliableCompletes(l: Layout, got: set<nat>, arrivals: seq<nat>)
    requires l.Ok() && l.Start(l.count) >= l.size && Reliable(l) && !All(l, got)
    requires forall k | 0 <= k < |arrivals| :: arrivals[k] < l.count
    requires forall i: nat | i < l.count :: i in got || i in arrivals
    ensures FateOf(l, got, arrivals) == Done
    decreases |arrivals|
  {
    var missing: nat :| missing < l.count && missing !in got;
    assert missing in arrivals;
    var i := arrivals[0];
    if i in got { RepeatedFits(l, got, i, missing); } else { NewFits(l, got, i); }
    if !All(l, got + {i}) { ReliableCompletes(l, got + {i}, arrivals[1..]); }
  }

  /** A payload over the limit is never completed. */
  lemma {:induction false} OversizeIsLost(l: Layout, got: set<nat>, arrivals: seq<nat>)
    requires l.Ok() && l.Start(l.count) >= l.size && l.size > MAX_MESSAGE_SIZE && !All(l, got)
    ensures FateOf(l, got, arrivals) != Done
    decreases |arrivals|
  {
    if arrivals != [] {
      var i := arrivals[0];
      if i < l.count && i !in got { NewFits(l, got, i); }
      if !All(l, got + {i}) {
        OversizeIsLost(l, got + {i}, arrivals[1..]);
      } else {
        assert got + {i} == got || i !in got;
      }
    }
  }

  /** The indices from `k` up to `n`. */
  function Upwards(k: nat, n: nat): seq<nat>
    requires k <= n
    decreases n - k
  {
    if k == n then [] else [k] + Upwards(k + 1, n)
  }

  lemma {:induction false} UpwardsMembers(k: nat, n: nat, i: nat)
    requires k <= n
    ensures i in Upwards(k, n) <==> k <= i < n
    decreases n - k
  {
    if k < n { UpwardsMembers(k + 1, n, i); }
  }

  lemma FateStep(l: Layout, got: set<nat>, i: nat, rest: seq<nat>)
    requires l.Ok() && i < l.count && l.Bytes(got) + l.Len(i) <= MAX_MESSAGE_SIZE && !All(l, got + {i})
    ensures FateOf(l, got, [i] + rest) == FateOf(l, got + {i}, rest)
  {
    assert ([i] + rest)[1..] == rest;
  }

  /** All fragments but the last arrive in order, and the message waits for what comes then. */
  lemma {:induction false} Climb(l: Layout, k: nat, tail: seq<nat>)
    requires l.Ok() && l.Start(l.count) >= l.size && l.size <= MAX_MESSAGE_SIZE && k <= l.count - 1
    ensures FateOf(l, First(k), Upwards(k, l.count - 1) + tail) == FateOf(l, First(l.count - 1), tail)
    decreases l.count - k
  {
    if k < l.count - 1 {
      var rest := Upwards(k + 1, l.count - 1) + tail;
      NewFits(l, First(k), k);
      assert First(k) + {k} == First(k + 1);
      assert l.count - 1 !in First(k + 1);
      assert Upwards(k, l.count - 1) + tail == [k] + rest;
      FateStep(l, First(k), k, rest);
      Climb(l, k + 1, tail);
    } else {
      assert [] + tail == tail;
    }
  }

  /** The first fragment once more before the last one comes. */
  function Unlucky(l: Layout): seq<nat>
    requires l.count >= 2
  {
    Upwards(0, l.count - 1) + [0, l.count - 1]
  }

  lemma UnluckyIsLost(l: Layout)
    requires l.Ok() && l.Start(l.count) >= l.size && l.count >= 2 && l.count * l.mtu > MAX_MESSAGE_SIZE >= l.size
    ensures Covers(l, Unlucky(l)) && FateOf(l, {}, Unlucky(l)) == Lost
  {
    var n := l.count - 1;
    assert First(0) == {};
    Climb(l, 0, [0, n]);
    SumLow(l);
    FullFragments(l, 0);
    NextStart(n, l.mtu);
    forall i: nat | i < l.count ensures i in Unlucky(l) { UpwardsMembers(0, n, i); }
    forall k | 0 <= k < |Unlucky(l)| ensures Unlucky(l)[k] < l.count {
      if k < |Upwards(0, n)| {
        assert Unlucky(l)[k] in Upwards(0, n);
        UpwardsMembers(0, n, Unlucky(l)[k]);
      }
    }
  }

  lemma SumLow(l: Layout)
    requires l.Ok() && l.count >= 2
    ensures l.Bytes(First(l.count - 1)) == l.Start(l.count - 1)
  {
    var n := l.count - 1;
    SumAll(l, First(n), n);
    assert l.Start(n) < l.size;
  }

  lemma UpwardsCovers(l: Layout)
    ensures Covers(l, Upwards(0, l.count))
  {
    forall i: nat | i < l.count ensures i in Upwards(0, l.count) { UpwardsMembers(0, l.count, i); }
    forall k | 0 <= k < |Upwards(0, l.count)| ensures Upwards(0, l.count)[k] < l.count {
      assert Upwards(0, l.count)[k] in Upwards(0, l.count);
      UpwardsMembers(0, l.count, Upwards(0, l.count)[k]);
    }
  }

  /**
   The exact condition: every list of arrivals that lacks no fragment completes the message, whatever its
   order and repetitions, exactly when the payload fits the limit and is one fragment, or would still fit
   with all fragments full.
   */
  lemma ArrivesWhole(l: Layout)
    requires l.Ok() && l.count >= 1 && l.Start(l.count) >= l.size
    ensures (forall arrivals | Covers(l, arrivals) :: FateOf(l, {}, arrivals) == Done) <==> Reliable(l)
  {
    var none: set<nat> := {};
    assert 0 !in none && !All(l, none);
    if Reliable(l) {
      forall arrivals | Covers(l, arrivals) ensures FateOf(l, {}, arrivals) == Done {
        ReliableCompletes(l, {}, arrivals);
      }
    } else if l.size > MAX_MESSAGE_SIZE {
      UpwardsCovers(l);
      OversizeIsLost(l, {}, Upwards(0, l.count));
    } else {
      UnluckyIsLost(l);
    }
  }

  /** The payload limit of the sender and its fragment length: the largest payload is the one that is not reliable. */
  lemma LargestPayload(size: nat, l: Layout)
    requires 1 <= size <= MAX_MESSAGE_SIZE && l == Layout(size, PAYLOAD_MTU, FragmentCount(size, PAYLOAD_MTU))
    ensures l.Ok() && l.count >= 1 && l.Start(l.count) >= l.size
    ensures Reliable(l) <==> size < MAX_MESSAGE_SIZE
  {
    var n := CeilDiv(size, PAYLOAD_MTU);
    assert 1 <= n <= 776 && FragmentCount(size, PAYLOAD_MTU) == n && (n == 776 <==> size == MAX_MESSAGE_SIZE);
    LayoutOk(size, PAYLOAD_MTU);
    CeilDivBounds(size, PAYLOAD_MTU, n);
  }

  /** The largest payload, lost when its first fragment comes again before its last. */
  lemma LargestIsLost(l: Layout)
    requires l == Layout(MAX_MESSAGE_SIZE, PAYLOAD_MTU, 776)
    ensures l.Ok() && Covers(l, Unlucky(l)) && FateOf(l, {}, Unlucky(l)) == Lost
  {
    assert FragmentCount(MAX_MESSAGE_SIZE, PAYLOAD_MTU) == 776;
    LargestPayload(MAX_MESSAGE_SIZE, l);
    UnluckyIsLost(l);
  }
}
