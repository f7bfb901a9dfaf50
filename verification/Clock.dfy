/**
 The consensus clock of merkle-tox-core (`NetworkClock`): one weighted vote per logical
 identity, a weighted median over the votes and a hard cap.  Offsets are 64-bit signed
 and weights 32-bit unsigned, with the source's saturating product, truncating division
 and wrapping addition written out; the slewed offset is a real.
 */
module Clock {
  import opened Wrappers
  import opened Sorting

  type Pk = nat

  const I64_MIN: int := -0x8000_0000_0000_0000
  const I64_MAX: int := 0x7fff_ffff_ffff_ffff
  const CAP: int := 300_000

  datatype Sample = Sample(offset: int, weight: nat)

  /** The samples of one identity; the map of identities is kept in key order. */
  datatype Entry = Entry(pk: Pk, samples: seq<Sample>)

  predicate FitsI64(x: int) { I64_MIN <= x <= I64_MAX }

  function Saturate(x: int): int { if x < I64_MIN then I64_MIN else if x > I64_MAX then I64_MAX else x }

  /** Two's complement wrap-around of a sum of two 64-bit numbers. */
  function Wrap(x: int): int {
    if x < I64_MIN then x + 0x1_0000_0000_0000_0000
    else if x > I64_MAX then x - 0x1_0000_0000_0000_0000
    else x
  }

  function TruncDiv(a: int, b: int): int
    requires b > 0
  {
    if a >= 0 then a / b else -((-a) / b)
  }

  function Midpoint(a: int, b: int): int { TruncDiv(Wrap(a + b), 2) }

  const SLEW_THRESHOLD: int := 600_000

  /** Conversion of a float to an integer: toward zero. */
  function Truncate(x: real): int { if x >= 0.0 then x.Floor else -((-x).Floor) }

  function Abs(x: real): real { if x >= 0.0 then x else -x }

  predicate Between(a: real, x: real, b: real) { a <= x <= b || b <= x <= a }

  function Clamp(x: int): int { if x < -CAP then -CAP else if x > CAP then CAP else x }

  // ------------------------------------------------------- one vote per identity

  function TotalWeight(s: seq<Sample>): nat {
    if s == [] then 0 else TotalWeight(s[..|s| - 1]) + s[|s| - 1].weight
  }

  function WeightedSum(s: seq<Sample>): int {
    if s == [] then 0 else WeightedSum(s[..|s| - 1]) + Saturate(s[|s| - 1].offset * s[|s| - 1].weight)
  }

  /** The vote of one identity. */
  function Average(s: seq<Sample>): Sample
    requires s != []
  {
    var w := TotalWeight(s);
    if w == 0 then Sample(0, 1)
    else Sample(TruncDiv(WeightedSum(s), w), if w / |s| == 0 then 1 else w / |s|)
  }

  function Votes(entries: seq<Entry>): seq<Sample> {
    if entries == [] then []
    else
      var e := entries[|entries| - 1];
      Votes(entries[..|entries| - 1]) + if e.samples == [] then [] else [Average(e.samples)]
  }

  /** A sample counts with the offset and weight it reports. */
  predicate Counts(s: Sample) { s.weight >= 1 && FitsI64(s.offset * s.weight) }

  lemma Scale(a: int, b: int, w: int)
    requires a <= b && w >= 0
    ensures a * w <= b * w
  {
  }

  lemma DivBelow(m: int, w: int, o: int)
    requires w > 0 && m >= 0
    ensures o * w > m ==> m / w < o
    ensures o * w == m ==> m / w == o
  {
    var q := m / w;
    assert m == q * w + m % w;
    assert (q + 1) * w == q * w + w && (o + 1) * w == o * w + w;
    if o <= q { Scale(o, q, w); }
    if o > q { Scale(q + 1, o, w); }
    if o < q { Scale(o + 1, q, w); }
  }

  /** A single sample is its identity's vote, as reported, exactly when it counts. */
  lemma VoteIsSample(s: Sample)
    ensures Average([s]) == s <==> Counts(s)
  {
    assert [s][..0] == [];
    assert TotalWeight([s]) == s.weight && WeightedSum([s]) == Saturate(s.offset * s.weight);
    if s.weight >= 1 {
      var p := Saturate(s.offset * s.weight);
      if p >= 0 { DivBelow(p, s.weight, s.offset); } else {
        DivBelow(-p, s.weight, -s.offset);
        assert (-s.offset) * s.weight == -(s.offset * s.weight);
      }
    }
  }

  // ------------------------------------------------------- weighted median

  /** The weight of the samples with an offset below `x`. */
  function Below(s: seq<Sample>, x: int): nat {
    if s == [] then 0
    else Below(s[..|s| - 1], x) + if s[|s| - 1].offset < x then s[|s| - 1].weight else 0
  }

  /** The lower and upper weighted medians, whatever the order of the samples. */
  ghost predicate LowerMedian(s: seq<Sample>, a: int) {
    2 * Below(s, a) < TotalWeight(s) <= 2 * Below(s, a + 1)
  }

  ghost predicate UpperMedian(s: seq<Sample>, b: int) {
    2 * Below(s, b) <= TotalWeight(s) < 2 * Below(s, b + 1)
  }

  lemma {:induction false} BelowMonotone(s: seq<Sample>, x: int, y: int)
    requires x <= y
    ensures Below(s, x) <= Below(s, y) <= TotalWeight(s)
  {
    if s != [] { BelowMonotone(s[..|s| - 1], x, y); }
  }

  /** There is at most one of each. */
  lemma MediansUnique(s: seq<Sample>, a: int, b: int, c: int, d: int)
    requires LowerMedian(s, a) && LowerMedian(s, b) && UpperMedian(s, c) && UpperMedian(s, d)
    ensures a == b <= c == d
  {
    if a < b { BelowMonotone(s, a + 1, b); }
    if b < a { BelowMonotone(s, b + 1, a); }
    if c < d { BelowMonotone(s, c + 1, d); }
    if d < c { BelowMonotone(s, d + 1, c); }
    if c < b { BelowMonotone(s, c + 1, b); }
  }

  /** What the recalculation aims for: the two medians' midpoint, or the median itself when they agree. */
  ghost predicate Consensus(s: seq<Sample>, t: int) {
    exists a, b :: LowerMedian(s, a) && UpperMedian(s, b) && (t == Midpoint(a, b) || t == a == b)
  }

  predicate Sorted(s: seq<Sample>) { forall i, j | 0 <= i < j < |s| :: s[i].offset <= s[j].offset }

  predicate Positive(s: seq<Sample>) { forall i | 0 <= i < |s| :: s[i].weight >= 1 }

  function SortByOffset(s: seq<Sample>): seq<Sample> { SortBy(s, (x: Sample) => x.offset) }

  lemma {:induction false} PlaceWeighs(s: seq<Sample>, x: Sample, key: Sample -> int, y: int)
    ensures var r := Place(s, x, key);
            && Below(r, y) == Below(s, y) + (if x.offset < y then x.weight else 0)
            && TotalWeight(r) == TotalWeight(s) + x.weight
  {
    var r := Place(s, x, key);
    if s == [] || key(s[|s| - 1]) <= key(x) {
      assert r[..|r| - 1] == s;
    } else {
      PlaceWeighs(s[..|s| - 1], x, key, y);
      assert r[..|r| - 1] == Place(s[..|s| - 1], x, key);
    }
  }

  /** Sorting, by whatever key, keeps the weight below any offset. */
  lemma {:induction false} SortKeeps(s: seq<Sample>, key: Sample -> int, y: int)
    ensures var r := SortBy(s, key); Below(r, y) == Below(s, y) && TotalWeight(r) == TotalWeight(s)
  {
    if s != [] {
      var init := s[..|s| - 1];
      SortKeeps(init, key, y);
      PlaceWeighs(SortBy(init, key), s[|s| - 1], key, y);
    }
  }

  lemma {:induction false} PrefixWeight(s: seq<Sample>, k: nat)
    requires k <= |s| && Positive(s)
    ensures TotalWeight(s) >= TotalWeight(s[..k]) + (|s| - k)
    decreases |s| - k
  {
    if k < |s| {
      PrefixWeight(s, k + 1);
      assert s[..k + 1][..k] == s[..k];
    } else {
      assert s[..k] == s;
    }
  }

  /** In a sorted list the first `k` samples bound the weight below, and at most, any of their neighbours. */
  lemma {:induction false} PrefixBounds(s: seq<Sample>, k: nat, x: int)
    requires k <= |s| && Sorted(s)
    ensures (k < |s| ==> x <= s[k].offset) ==> Below(s, x) <= TotalWeight(s[..k])
    ensures (k > 0 ==> s[k - 1].offset < x) ==> Below(s, x) >= TotalWeight(s[..k])
    decreases |s|
  {
    if |s| > 0 {
      var init := s[..|s| - 1];
      if k < |s| {
        PrefixBounds(init, k, x);
        assert init[..k] == s[..k];
      } else {
        assert s[..k] == s;
        BelowMonotone(s, x, x);
        if s[k - 1].offset < x { AllBelow(s, x); }
      }
    }
  }

  lemma {:induction false} AllBelow(s: seq<Sample>, x: int)
    requires forall i | 0 <= i < |s| :: s[i].offset < x
    ensures Below(s, x) == TotalWeight(s)
  {
    if s != [] { AllBelow(s[..|s| - 1], x); }
  }

  /** How the scan of the sorted samples picks its target. */
  ghost predicate Picked(s: seq<Sample>, i: nat, t: int)
    requires i < |s|
  {
    var total, before, upTo := TotalWeight(s), TotalWeight(s[..i]), TotalWeight(s[..i + 1]);
    && 2 * before < total
    && if 2 * upTo == total then i + 1 < |s| && t == Midpoint(s[i].offset, s[i + 1].offset)
       else 2 * upTo > total && t == s[i].offset
  }

  /** The picked target is the consensus of the samples. */
  lemma PickedIsConsensus(s: seq<Sample>, i: nat, t: int)
    requires i < |s| && Sorted(s) && Positive(s) && Picked(s, i, t)
    ensures Consensus(s, t)
  {
    var a := s[i].offset;
    PrefixBounds(s, i, a);
    PrefixBounds(s, i + 1, a + 1);
    if 2 * TotalWeight(s[..i + 1]) == TotalWeight(s) {
      var b := s[i + 1].offset;
      PrefixBounds(s, i + 1, b);
      PrefixBounds(s, i + 2, b + 1);
      assert s[..i + 2][..i + 1] == s[..i + 1];
      assert LowerMedian(s, a) && UpperMedian(s, b);
    } else {
      assert LowerMedian(s, a) && UpperMedian(s, a);
    }
  }

  lemma AllOfIt(s: seq<Sample>, k: nat)
    ensures k == |s| ==> s[..k] == s
  {
  }

  /** The scan over the sorted votes. */
  method Median(s: seq<Sample>) returns (target: int, ghost at: nat)
    requires s != [] && Sorted(s) && Positive(s)
    ensures at < |s| && Picked(s, at, target) && Consensus(s, target)
  {
    var total, half := TotalWeight(s), TotalWeight(s) / 2;
    var current := 0;
    target, at := s[|s| - 1].offset, |s| - 1;
    PrefixWeight(s, 0);
    assert s[..|s|] == s;
    for i := 0 to |s|
      invariant current == TotalWeight(s[..i]) && 2 * current < total
    {
      var Sample(offset, weight) := s[i];
      assert s[..i + 1][..i] == s[..i];
      current := current + weight;
      if current > half {
        target, at := offset, i;
        PickedIsConsensus(s, i, target);
        return;
      } else if current == half && total % 2 == 0 {
        PrefixWeight(s, i + 1);
        if i + 1 < |s| {
          target, at := Midpoint(offset, s[i + 1].offset), i;
        } else {
          target := offset;
        }
        AllOfIt(s, i + 1);
        PickedIsConsensus(s, i, target);
        return;
      }
    }
  }

  lemma SortedConsensus(votes: seq<Sample>, t: int)
    requires Consensus(SortByOffset(votes), t)
    ensures Consensus(votes, t)
  {
    var r, key := SortByOffset(votes), (x: Sample) => x.offset;
    var a, b :| LowerMedian(r, a) && UpperMedian(r, b) && (t == Midpoint(a, b) || t == a == b);
    SortKeeps(votes, key, a);
    SortKeeps(votes, key, a + 1);
    SortKeeps(votes, key, b);
    SortKeeps(votes, key, b + 1);
    assert LowerMedian(votes, a) && UpperMedian(votes, b);
  }

  lemma SortedVotes(votes: seq<Sample>)
    requires Positive(votes)
    ensures var r := SortByOffset(votes); |r| == |votes| && Sorted(r) && Positive(r)
  {
    var r, key := SortByOffset(votes), (x: Sample) => x.offset;
    SortSorts(votes, key);
    SameMembers(votes, key);
    assert forall i | 0 <= i < |r| :: key(r[i]) == r[i].offset;
    forall i | 0 <= i < |r| ensures r[i].weight >= 1 { assert r[i] in votes; }
  }

  method WeightedMedian(votes: seq<Sample>) returns (target: int)
    requires votes != [] && Positive(votes)
    ensures Consensus(votes, target)
  {
    SortedVotes(votes);
    ghost var at;
    target, at := Median(SortByOffset(votes));
    SortedConsensus(votes, target);
  }

  // ------------------------------------------------------- resilience

  /** The midpoint of two offsets lies between them exactly when their sum does not overflow. */
  lemma MidpointBetween(a: int, b: int)
    requires I64_MIN <= a <= b <= I64_MAX
    ensures a <= Midpoint(a, b) <= b <==> FitsI64(a + b)
  {
  }

  /** The consensus is the mean of the two medians, rounded toward zero, whenever their sum does not overflow. */
  lemma ConsensusIsMean(s: seq<Sample>, t: int, a: int, b: int)
    requires Consensus(s, t) && LowerMedian(s, a) && UpperMedian(s, b) && FitsI64(a + b)
    ensures if a + b >= 0 then 2 * t <= a + b <= 2 * t + 1 else 2 * t - 1 <= a + b <= 2 * t
  {
    var c, d :| LowerMedian(s, c) && UpperMedian(s, d) && (t == Midpoint(c, d) || t == c == d);
    MediansUnique(s, a, c, b, d);
  }

  /** Samples within a range that hold more than half the weight confine both medians to it. */
  lemma MajorityConfines(s: seq<Sample>, lo: int, hi: int, a: int, b: int)
    requires 2 * (Below(s, hi + 1) - Below(s, lo)) > TotalWeight(s)
    requires LowerMedian(s, a) && UpperMedian(s, b)
    ensures lo <= a <= b <= hi
  {
    MediansUnique(s, a, a, b, b);
    BelowMonotone(s, hi + 1, hi + 1);
    if a < lo { BelowMonotone(s, a + 1, lo); }
    if b > hi { BelowMonotone(s, hi + 1, b); }
  }

  /** The reported weight of the honest identities. */
  function HonestWeight(entries: seq<Entry>, honest: set<Pk>): nat {
    if entries == [] then 0
    else
      var e := entries[|entries| - 1];
      HonestWeight(entries[..|entries| - 1], honest) + if e.pk in honest then TotalWeight(e.samples) else 0
  }

  /** An honest identity reports one sample, in the range, that counts as reported. */
  predicate Honest(e: Entry, lo: int, hi: int) {
    |e.samples| == 1 && Counts(e.samples[0]) && lo <= e.samples[0].offset <= hi
  }

  lemma {:induction false} HonestVotes(entries: seq<Entry>, honest: set<Pk>, lo: int, hi: int)
    requires lo <= hi
    requires forall i | 0 <= i < |entries| && entries[i].pk in honest :: Honest(entries[i], lo, hi)
    ensures var v := Votes(entries); Below(v, hi + 1) - Below(v, lo) >= HonestWeight(entries, honest)
  {
    if entries != [] {
      var init, e := entries[..|entries| - 1], entries[|entries| - 1];
      HonestVotes(init, honest, lo, hi);
      if e.samples != [] {
        var v := Votes(entries);
        assert v[..|v| - 1] == Votes(init);
        if e.pk in honest {
          VoteIsSample(e.samples[0]);
          assert e.samples == [e.samples[0]];
          assert [e.samples[0]][..0] == [];
        }
      } else {
        assert Votes(entries) == Votes(init);
        assert e.pk !in honest;
      }
    }
  }

  /**
   Byzantine resilience: when the honest identities hold strictly more than half of the
   weight, no choice of the other identities' offsets and weights moves the target out of
   the honest range.  The bound on the range is what keeps the midpoint from overflowing.
   */
  lemma Resilience(entries: seq<Entry>, honest: set<Pk>, lo: int, hi: int, t: int)
    requires Consensus(Votes(entries), t)
    requires 2 * HonestWeight(entries, honest) > TotalWeight(Votes(entries))
    requires forall i | 0 <= i < |entries| && entries[i].pk in honest :: Honest(entries[i], lo, hi)
    requires I64_MIN <= lo + lo && hi + hi <= I64_MAX && lo <= hi
    ensures lo <= t <= hi
  {
    var v := Votes(entries);
    HonestVotes(entries, honest, lo, hi);
    var a, b :| LowerMedian(v, a) && UpperMedian(v, b) && (t == Midpoint(a, b) || t == a == b);
    MajorityConfines(v, lo, hi, a, b);
    MidpointBetween(a, b);
  }

  /** Without that bound the property fails: two equal votes agree on their offset exactly when its double fits. */
  lemma EqualVotesAgree(x: int, w: nat, i: nat, t: int)
    requires FitsI64(x) && w >= 1 && i < 2 && Picked([Sample(x, w), Sample(x, w)], i, t)
    ensures t == x <==> FitsI64(x + x)
  {
    var s := [Sample(x, w), Sample(x, w)];
    assert s[..2] == s && s[..1] == [s[0]] && s[..1][..0] == [] && s[..0] == [];
    assert TotalWeight(s[..1]) == w && TotalWeight(s) == w + w;
    MidpointBetween(x, x);
  }

  // ------------------------------------------------------- the clock

  predicate Ascending(entries: seq<Entry>) { forall i, j | 0 <= i < j < |entries| :: entries[i].pk < entries[j].pk }

  /** Each identity has exactly one sample: a new one replaces the old. */
  predicate OneVoteEach(entries: seq<Entry>) {
    && Ascending(entries)
    && forall i | 0 <= i < |entries| :: |entries[i].samples| == 1 && FitsI64(entries[i].samples[0].offset)
  }

  /** The samples stored for an identity. */
  function SamplesOf(entries: seq<Entry>, pk: Pk): Option<seq<Sample>> {
    if entries == [] then None
    else
      var e := entries[|entries| - 1];
      if e.pk == pk then Some(e.samples) else SamplesOf(entries[..|entries| - 1], pk)
  }

  lemma {:induction false} SamplesOfConcat(a: seq<Entry>, b: seq<Entry>, pk: Pk)
    ensures SamplesOf(a + b, pk) == if SamplesOf(b, pk).Some? then SamplesOf(b, pk) else SamplesOf(a, pk)
  {
    if b == [] {
      assert a + b == a;
    } else {
      SamplesOfConcat(a, b[..|b| - 1], pk);
      assert (a + b)[..|a + b| - 1] == a + b[..|b| - 1];
    }
  }

  lemma {:induction false} SamplesOfAbsent(s: seq<Entry>, pk: Pk)
    requires forall j | 0 <= j < |s| :: s[j].pk != pk
    ensures SamplesOf(s, pk).None?
  {
    if s != [] { SamplesOfAbsent(s[..|s| - 1], pk); }
  }

  class NetworkClock {
    var entries: seq<Entry>
    var deviceToIdentity: map<Pk, Pk>
    var targetOffset: int
    /** What is applied now; a real where the source has a float. */
    var currentOffset: real
    var lastNetworkTime: int

    ghost predicate Valid()
      reads this
    {
      && OneVoteEach(entries) && -CAP <= targetOffset <= CAP
      && -CAP as real <= currentOffset <= CAP as real
    }

    constructor (systemTime: int)
      ensures Valid() && entries == [] && deviceToIdentity == map[] && targetOffset == 0 && currentOffset == 0.0
      ensures lastNetworkTime == systemTime
    {
      entries, deviceToIdentity, targetOffset, currentOffset, lastNetworkTime := [], map[], 0, 0.0, systemTime;
    }

    /** Replaces the samples of one identity. */
    method Replace(pk: Pk, sample: Sample)
      requires Valid() && FitsI64(sample.offset)
      modifies `entries
      ensures Valid()
      ensures forall k: Pk :: SamplesOf(entries, k) == if k == pk then Some([sample]) else SamplesOf(old(entries), k)
      ensures entries != []
    {
      var i := 0;
      while i < |entries| && entries[i].pk < pk
        invariant 0 <= i <= |entries|
        invariant forall j | 0 <= j < i :: entries[j].pk < pk
      {
        i := i + 1;
      }
      var next := if i < |entries| && entries[i].pk == pk then i + 1 else i;
      ghost var a, same, c := entries[..i], entries[i..next], entries[next..];
      assert entries == a + same + c;
      forall k: Pk ensures SamplesOf(a + [Entry(pk, [sample])] + c, k) ==
                           if k == pk then Some([sample]) else SamplesOf(entries, k)
      {
        SpliceMeans(a, same, c, Entry(pk, [sample]), k);
      }
      SpliceKeeps(entries, i, next, Entry(pk, [sample]), a + [Entry(pk, [sample])] + c);
      entries := entries[..i] + [Entry(pk, [sample])] + entries[next..];
    }

    method UpdatePeerOffset(peer: Pk, logical: Pk, offset: int, weight: nat) returns (ghost t: int)
      requires Valid() && FitsI64(offset)
      modifies this
      ensures Valid()
      ensures forall k: Pk :: SamplesOf(entries, k) ==
                              if k == logical then Some([Sample(offset, weight)]) else SamplesOf(old(entries), k)
      ensures deviceToIdentity == old(deviceToIdentity)[peer := logical]
      ensures Consensus(Votes(entries), t) && targetOffset == Clamp(t)
      ensures -300_000 <= t <= 300_000 ==> targetOffset == t
      ensures t > 300_000 ==> targetOffset == 300_000
      ensures t < -300_000 ==> targetOffset == -300_000
      ensures lastNetworkTime == old(lastNetworkTime)
    {
      deviceToIdentity := deviceToIdentity[peer := logical];
      Replace(logical, Sample(offset, weight));
      t := RecalculateConsensus();
    }

    method CollectVotes() returns (votes: seq<Sample>)
      requires Valid()
      ensures votes == Votes(entries) && |votes| == |entries| && Positive(votes)
    {
      votes := [];
      for i := 0 to |entries|
        invariant votes == Votes(entries[..i]) && |votes| == i && Positive(votes)
      {
        assert entries[..i + 1][..i] == entries[..i];
        if entries[i].samples != [] {
          votes := votes + [Average(entries[i].samples)];
        }
      }
      assert entries[..|entries|] == entries;
    }

    /**
     The first sample is applied at once; every other change is left to slewing.  The jump on
     massive drift never happens: both offsets are within the cap.
     */
    method RecalculateConsensus() returns (ghost t: int)
      requires Valid() && entries != []
      modifies `targetOffset, `currentOffset
      ensures Valid()
      ensures Consensus(Votes(entries), t) && targetOffset == Clamp(t)
      ensures -300_000 <= t <= 300_000 ==> targetOffset == t
      ensures t > 300_000 ==> targetOffset == 300_000
      ensures t < -300_000 ==> targetOffset == -300_000
      ensures currentOffset == if old(targetOffset) == 0 && old(currentOffset) == 0.0 && |entries| == 1
                               then targetOffset as real else old(currentOffset)
    {
      var votes := CollectVotes();
      var target := WeightedMedian(votes);
      t := target;
      target := Clamp(target);
      Apply(target);
    }

    method Apply(target: int)
      requires Valid() && -CAP <= target <= CAP
      modifies `targetOffset, `currentOffset
      ensures Valid() && targetOffset == target
      ensures currentOffset == if old(targetOffset) == 0 && old(currentOffset) == 0.0 && |entries| == 1
                               then target as real else old(currentOffset)
    {
      if targetOffset == 0 && currentOffset == 0.0 && |entries| == 1 { currentOffset := target as real; }
      targetOffset := target;
      var gap := targetOffset - Truncate(currentOffset);
      if gap > SLEW_THRESHOLD || -gap > SLEW_THRESHOLD { currentOffset := targetOffset as real; }
    }

    /** Moves the current offset toward the target, by at most one part in a hundred of the time elapsed. */
    method ApplySlewing(elapsed: real)
      requires Valid() && elapsed >= 0.0
      modifies `currentOffset
      ensures Valid() && Between(old(currentOffset), currentOffset, targetOffset as real)
      ensures var gap := Abs(targetOffset as real - old(currentOffset));
              if gap < 0.1 || gap <= elapsed / 100.0 then currentOffset == targetOffset as real
              else Abs(currentOffset - old(currentOffset)) == elapsed / 100.0
    {
      var target := targetOffset as real;
      if Abs(currentOffset - target) < 0.1 {
        currentOffset := target;
        return;
      }
      var most, remaining := elapsed / 100.0, target - currentOffset;
      if remaining > 0.0 {
        currentOffset := currentOffset + if remaining < most then remaining else most;
      } else {
        currentOffset := currentOffset - if -remaining < most then -remaining else most;
      }
    }

    /** The network time never goes back. */
    method NetworkTime(systemTime: int, elapsed: real) returns (time: int)
      requires Valid() && elapsed >= 0.0
      modifies `currentOffset, `lastNetworkTime
      ensures Valid() && time == lastNetworkTime >= old(lastNetworkTime)
      ensures time == old(lastNetworkTime) || time == systemTime + Truncate(currentOffset)
    {
      ApplySlewing(elapsed);
      time := systemTime + Truncate(currentOffset);
      if time < lastNetworkTime { time := lastNetworkTime; } else { lastNetworkTime := time; }
    }
  }

  lemma SpliceKeeps(before: seq<Entry>, i: nat, skip: nat, e: Entry, after: seq<Entry>)
    requires OneVoteEach(before) && i <= skip <= |before|
    requires |e.samples| == 1 && FitsI64(e.samples[0].offset)
    requires forall j | 0 <= j < i :: before[j].pk < e.pk
    requires forall j | skip <= j < |before| :: before[j].pk > e.pk
    requires after == before[..i] + [e] + before[skip..]
    ensures OneVoteEach(after)
  {
  }

  /** Putting an entry in the place of those with its key changes that key alone. */
  lemma SpliceMeans(a: seq<Entry>, same: seq<Entry>, c: seq<Entry>, e: Entry, pk: Pk)
    requires forall j | 0 <= j < |same| :: same[j].pk == e.pk
    requires forall j | 0 <= j < |c| :: c[j].pk > e.pk
    ensures SamplesOf(a + [e] + c, pk) == if pk == e.pk then Some(e.samples) else SamplesOf(a + same + c, pk)
  {
    SamplesOfConcat(a + [e], c, pk);
    SamplesOfConcat(a, [e], pk);
    SamplesOfConcat(a + same, c, pk);
    SamplesOfConcat(a, same, pk);
    if pk == e.pk { SamplesOfAbsent(c, pk); } else { SamplesOfAbsent(same, pk); }
    assert [e][..0] == [];
  }
}
