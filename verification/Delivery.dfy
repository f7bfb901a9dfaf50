/**
 At-most-once delivery over the bounded cache of completed ids.

 Ids are looked at as positions from some origin, in the serial-number order of
 section 3.2 of RFC 1982: all ids of a run lie within half the id space.  The
 argument counts: an id is evicted from the cache only after 1024 later
 completions, at most 31 of which can lie more than 32 below it (those that were
 being reassembled beside it), so by then the highest id is far enough ahead for
 the lookback test to refuse the evicted one.
 */
module Delivery {
  import opened Wrappers
  import opened Protocol
  import opened Sequences

  const SLOTS: nat := MAX_CONCURRENT_INCOMING
  const CACHE: nat := MAX_COMPLETED_INCOMING

  /** How many members of `s` lie more than the lookback below `b`. */
  function Low(s: seq<nat>, b: nat): nat {
    if s == [] then 0 else Low(s[..|s| - 1], b) + if s[|s| - 1] + LOOKBACK < b then 1 else 0
  }

  ghost predicate AllBelow(s: seq<nat>, n: nat) {
    forall i | 0 <= i < |s| :: s[i] < n
  }

  lemma LowPush(s: seq<nat>, x: nat, b: nat)
    ensures Low(s + [x], b) == Low(s, b) + if x + LOOKBACK < b then 1 else 0
  {
    assert (s + [x])[..|s|] == s;
  }

  lemma {:induction false} LowAtMost(s: seq<nat>, b: nat)
    ensures Low(s, b) <= |s|
  {
    if s != [] { LowAtMost(s[..|s| - 1], b); }
  }

  lemma {:induction false} LowRemove(s: seq<nat>, k: nat, b: nat)
    requires k < |s|
    ensures Low(Without(s, k), b) == Low(s, b) - if s[k] + LOOKBACK < b then 1 else 0
  {
    var rest, n := Without(s, k), |s| - 1;
    if k == n {
      assert rest == s[..n];
    } else {
      LowRemove(s[..n], k, b);
      assert rest[..n - 1] == Without(s[..n], k);
    }
  }

  /**
   For every cached id, at most 31 ids lie far below it among those completed
   after it and those still being reassembled.
   */
  ghost predicate Spread(done: seq<nat>, inc: seq<nat>) {
    done == [] || (Low(done[1..], done[0]) + Low(inc, done[0]) < SLOTS && Spread(done[1..], inc))
  }

  lemma {:induction false} SpreadOpen(done: seq<nat>, inc: seq<nat>, z: nat)
    requires Spread(done, inc) && AllBelow(done, z + LOOKBACK + 1)
    ensures Spread(done, inc + [z])
  {
    if done != [] {
      LowPush(inc, z, done[0]);
      SpreadOpen(done[1..], inc, z);
    }
  }

  lemma {:induction false} SpreadDrop(done: seq<nat>, inc: seq<nat>, k: nat)
    requires Spread(done, inc) && k < |inc|
    ensures Spread(done, Without(inc, k))
  {
    if done != [] {
      LowRemove(inc, k, done[0]);
      SpreadDrop(done[1..], inc, k);
    }
  }

  lemma {:induction false} SpreadFinish(done: seq<nat>, inc: seq<nat>, k: nat)
    requires Spread(done, inc) && k < |inc| <= SLOTS
    ensures Spread(done + [inc[k]], Without(inc, k))
  {
    var x := inc[k];
    if done == [] {
      LowAtMost(Without(inc, k), x);
      assert ([] + [x])[1..] == [];
    } else {
      SpreadFinish(done[1..], inc, k);
      LowRemove(inc, k, done[0]);
      LowPush(done[1..], x, done[0]);
      assert (done + [x])[1..] == done[1..] + [x];
    }
  }

  // ------------------------------------------------------- the counting step

  /** Distinct numbers in [lo, hi) are at most hi - lo many. */
  lemma {:induction false} DistinctBound(s: seq<nat>, lo: nat, hi: nat)
    requires lo <= hi && Distinct(s) && AllBelow(s, hi) && forall i | 0 <= i < |s| :: lo <= s[i]
    ensures |s| <= hi - lo
    decreases hi
  {
    if s == [] {
    } else if k :| 0 <= k < |s| && s[k] == hi - 1 {
      DistinctBound(Without(s, k), lo, hi - 1);
    } else {
      assert lo <= s[0] && s[0] < hi - 1;
      DistinctBound(s, lo, hi - 1);
    }
  }

  function Near(s: seq<nat>, b: nat): seq<nat> {
    if s == [] then []
    else Near(s[..|s| - 1], b) + if s[|s| - 1] + LOOKBACK < b then [] else [s[|s| - 1]]
  }

  lemma {:induction false} NearFacts(s: seq<nat>, b: nat)
    ensures |Near(s, b)| == |s| - Low(s, b)
    ensures forall x | x in Near(s, b) :: x in s && x + LOOKBACK >= b
    ensures Distinct(s) ==> Distinct(Near(s, b))
  {
    if s != [] {
      var p, x := s[..|s| - 1], s[|s| - 1];
      NearFacts(p, b);
      assert s == p + [x];
      if Distinct(s) {
        assert x !in p;
        assert Distinct(p);
      }
    }
  }

  /** When the cache overflows, the highest id is already far past the oldest entry. */
  lemma EvictedIsFarBehind(done: seq<nat>, inc: seq<nat>, top: nat)
    requires Spread(done, inc) && |done| > CACHE && Distinct(done) && AllBelow(done, top + 1)
    ensures done[0] + LOOKBACK < top
  {
    var rest, b := done[1..], done[0];
    NearFacts(rest, b);
    var near := Near(rest, b);
    var lo := if b >= LOOKBACK then b - LOOKBACK else 0;
    forall i | 0 <= i < |near| ensures lo <= near[i] < top + 1 {
      assert near[i] in near;
      var j :| 0 <= j < |rest| && rest[j] == near[i];
      assert rest[j] == done[j + 1];
    }
    DistinctBound(near, lo, top + 1);
  }

  // ------------------------------------------------------------ run invariant

  /** What matters for delivery: highest position, positions in reassembly, cached, delivered. */
  datatype Picture = Picture(top: Option<nat>, inc: seq<nat>, done: seq<nat>, out: seq<nat>)

  ghost predicate Once(p: Picture) {
    && (p.top.None? ==> p.inc == [] && p.done == [] && p.out == [])
    && (p.top.Some? ==> var n := p.top.value + 1; AllBelow(p.inc, n) && AllBelow(p.done, n) && AllBelow(p.out, n))
    && |p.inc| <= SLOTS && |p.done| <= CACHE
    && Distinct(p.inc) && Distinct(p.done) && Distinct(p.out)
    && Spread(p.done, p.inc)
    && Apart(p.inc, p.done, p.out)
    && (p.top.Some? ==> Covered(p.out, p.done, p.top.value))
  }

  /** What is in reassembly is neither cached nor delivered. */
  ghost predicate Apart(inc: seq<nat>, done: seq<nat>, out: seq<nat>) {
    forall i | 0 <= i < |inc| :: inc[i] !in done && inc[i] !in out
  }

  /** What was delivered is cached or far behind. */
  ghost predicate Covered(out: seq<nat>, done: seq<nat>, top: nat) {
    forall i | 0 <= i < |out| :: out[i] in done || out[i] + LOOKBACK < top
  }

  /** The lookback test lets a position in only if it was not delivered. */
  lemma AdmittedIsNew(p: Picture, z: nat)
    requires Once(p) && z !in p.done && (p.top.Some? ==> p.top.value <= z + LOOKBACK)
    ensures z !in p.out
  {
    forall i | 0 <= i < |p.out| ensures p.out[i] != z {
    }
  }

  function Raise(top: Option<nat>, z: nat): Option<nat> {
    if top.None? || z >= top.value then Some(z) else top
  }

  lemma OpenKeeps(p: Picture, z: nat)
    requires Once(p) && |p.inc| < SLOTS && z !in p.inc && z !in p.done
    requires p.top.Some? ==> p.top.value <= z + LOOKBACK
    ensures Once(p.(top := Raise(p.top, z), inc := p.inc + [z]))
  {
    var top := Raise(p.top, z).value;
    OpenBelow(p, z, top);
    OpenApart(p, z);
    SpreadOpen(p.done, p.inc, z);
    OnceParts(top, p.inc + [z], p.done, p.out);
  }

  lemma OpenBelow(p: Picture, z: nat, top: nat)
    requires Once(p) && z !in p.inc && Raise(p.top, z) == Some(top) && (p.top.Some? ==> p.top.value <= z + LOOKBACK)
    ensures AllBelow(p.inc + [z], top + 1) && AllBelow(p.done, top + 1) && AllBelow(p.out, top + 1)
    ensures Distinct(p.inc + [z]) && AllBelow(p.done, z + LOOKBACK + 1) && Covered(p.out, p.done, top)
  {
    PushKeeps(p.inc, z, top + 1);
  }

  lemma OpenApart(p: Picture, z: nat)
    requires Once(p) && z !in p.inc && z !in p.done && (p.top.Some? ==> p.top.value <= z + LOOKBACK)
    ensures Apart(p.inc + [z], p.done, p.out)
  {
    AdmittedIsNew(p, z);
    var inc := p.inc + [z];
    forall i | 0 <= i < |inc| ensures inc[i] !in p.done && inc[i] !in p.out { assert i < |p.inc| || inc[i] == z; }
  }

  lemma PushKeeps(s: seq<nat>, z: nat, n: nat)
    requires Distinct(s) && z !in s && z < n && AllBelow(s, n)
    ensures Distinct(s + [z]) && AllBelow(s + [z], n)
  {
  }

  lemma DropKeeps(p: Picture, k: nat)
    requires Once(p) && k < |p.inc|
    ensures Once(p.(inc := Without(p.inc, k)))
  {
    SpreadDrop(p.done, p.inc, k);
  }

  function Cache(done: seq<nat>, x: nat): seq<nat> {
    if |done| < CACHE then done + [x] else done[1..] + [x]
  }

  lemma CacheMember(done: seq<nat>, x: nat, y: nat)
    ensures y in Cache(done, x) ==> y == x || y in done
    ensures x in Cache(done, x)
    ensures y in done ==> y in Cache(done, x) || (|done| >= CACHE && y == done[0])
  {
    var c := Cache(done, x);
    assert c[|c| - 1] == x;
    if y in done {
      var j :| 0 <= j < |done| && done[j] == y;
      if |done| < CACHE { assert c[j] == y; } else if j > 0 { assert c[j - 1] == y; }
    }
  }

  /** Caching one more id keeps the cache distinct and spread, and evicts only what is far behind. */
  lemma CacheKeeps(p: Picture, k: nat)
    requires Once(p) && k < |p.inc|
    ensures var done := Cache(p.done, p.inc[k]);
            && |done| <= CACHE && Distinct(done) && AllBelow(done, p.top.value + 1) && Spread(done, Without(p.inc, k))
    ensures |p.done| >= CACHE ==> p.done[0] + LOOKBACK < p.top.value
  {
    var x := p.inc[k];
    var all := p.done + [x];
    SpreadFinish(p.done, p.inc, k);
    assert Distinct(all) && AllBelow(all, p.top.value + 1);
    if |p.done| >= CACHE {
      EvictedIsFarBehind(all, Without(p.inc, k), p.top.value);
      assert all[1..] == p.done[1..] + [x];
    }
  }

  lemma OnceParts(top: nat, inc: seq<nat>, done: seq<nat>, out: seq<nat>)
    requires AllBelow(inc, top + 1) && AllBelow(done, top + 1) && AllBelow(out, top + 1)
    requires |inc| <= SLOTS && |done| <= CACHE && Distinct(inc) && Distinct(done) && Distinct(out)
    requires Spread(done, inc) && Apart(inc, done, out) && Covered(out, done, top)
    ensures Once(Picture(Some(top), inc, done, out))
  {
  }

  lemma WithoutKeeps(s: seq<nat>, k: nat, n: nat)
    requires k < |s| && Distinct(s) && AllBelow(s, n)
    ensures Distinct(Without(s, k)) && AllBelow(Without(s, k), n)
  {
  }

  lemma FinishOut(p: Picture, k: nat, deliver: bool)
    requires Once(p) && k < |p.inc|
    ensures var out := if deliver then p.out + [p.inc[k]] else p.out; AllBelow(out, p.top.value + 1) && Distinct(out)
  {
  }

  /** What is still in reassembly was neither cached nor delivered. */
  lemma FinishApart(p: Picture, k: nat, deliver: bool)
    requires Once(p) && k < |p.inc|
    ensures Apart(Without(p.inc, k), Cache(p.done, p.inc[k]), if deliver then p.out + [p.inc[k]] else p.out)
  {
    var inc := Without(p.inc, k);
    forall i | 0 <= i < |inc| ensures inc[i] !in Cache(p.done, p.inc[k]) && inc[i] !in p.out && inc[i] != p.inc[k] {
      assert inc[i] == p.inc[if i < k then i else i + 1];
      CacheMember(p.done, p.inc[k], inc[i]);
    }
  }

  /** What was delivered is cached or far behind. */
  lemma FinishCovered(p: Picture, k: nat, deliver: bool)
    requires Once(p) && k < |p.inc| && (|p.done| >= CACHE ==> p.done[0] + LOOKBACK < p.top.value)
    ensures Covered(if deliver then p.out + [p.inc[k]] else p.out, Cache(p.done, p.inc[k]), p.top.value)
  {
    var out := if deliver then p.out + [p.inc[k]] else p.out;
    forall i | 0 <= i < |out| ensures out[i] in Cache(p.done, p.inc[k]) || out[i] + LOOKBACK < p.top.value {
      CacheMember(p.done, p.inc[k], out[i]);
    }
  }

  /** Completion moves an id from reassembly to the cache, evicting at 1024, and may deliver it. */
  lemma FinishKeeps(p: Picture, k: nat, deliver: bool)
    requires Once(p) && k < |p.inc|
    ensures Once(p.(inc := Without(p.inc, k), done := Cache(p.done, p.inc[k]),
                    out := if deliver then p.out + [p.inc[k]] else p.out))
  {
    var x, inc, done := p.inc[k], Without(p.inc, k), Cache(p.done, p.inc[k]);
    var out := if deliver then p.out + [x] else p.out;
    CacheKeeps(p, k);
    WithoutKeeps(p.inc, k, p.top.value + 1);
    FinishApart(p, k, deliver);
    FinishCovered(p, k, deliver);
    FinishOut(p, k, deliver);
    OnceParts(p.top.value, inc, done, out);
  }

  // ------------------------------------------------------- forgetting

  /** `a` is left of `b` after some elements were dropped. */
  ghost predicate Sub(a: seq<nat>, b: seq<nat>) {
    a == [] || (b != [] && ((a[0] == b[0] && Sub(a[1..], b[1..])) || Sub(a, b[1..])))
  }

  lemma {:induction false} SubPush(a: seq<nat>, b: seq<nat>, x: nat)
    requires Sub(a, b)
    ensures Sub(a, b + [x]) && Sub(a + [x], b + [x])
    decreases b
  {
    if b == [] {
      assert ([] + [x])[1..] == [];
      assert a + [x] == [x] == b + [x];
    } else {
      assert (b + [x])[1..] == b[1..] + [x];
      if a == [] {
        SubPush(a, b[1..], x);
        assert a + [x] == [x];
      } else if a[0] == b[0] && Sub(a[1..], b[1..]) {
        SubPush(a[1..], b[1..], x);
        assert (a + [x])[1..] == a[1..] + [x];
      } else {
        SubPush(a, b[1..], x);
      }
    }
  }

  lemma {:induction false} LowFront(s: seq<nat>, b: nat)
    requires s != []
    ensures Low(s, b) == Low(s[1..], b) + if s[0] + LOOKBACK < b then 1 else 0
  {
    if |s| > 1 {
      LowFront(s[..|s| - 1], b);
      assert s[..|s| - 1][1..] == s[1..][..|s| - 2];
    }
  }

  lemma {:induction false} SubLow(a: seq<nat>, b: seq<nat>, x: nat)
    requires Sub(a, b)
    ensures Low(a, x) <= Low(b, x) && |a| <= |b|
    decreases b
  {
    if a != [] {
      LowFront(a, x);
      LowFront(b, x);
      if a[0] == b[0] && Sub(a[1..], b[1..]) { SubLow(a[1..], b[1..], x); } else { SubLow(a, b[1..], x); }
    }
  }

  lemma {:induction false} SubMember(a: seq<nat>, b: seq<nat>, x: nat)
    requires Sub(a, b) && x in a
    ensures x in b
    decreases b
  {
    if a[0] == b[0] && Sub(a[1..], b[1..]) {
      if x != a[0] { SubMember(a[1..], b[1..], x); }
    } else {
      SubMember(a, b[1..], x);
    }
  }

  lemma {:induction false} SubDistinct(a: seq<nat>, b: seq<nat>)
    requires Sub(a, b) && Distinct(b)
    ensures Distinct(a)
    decreases b
  {
    if a != [] {
      if a[0] == b[0] && Sub(a[1..], b[1..]) {
        SubDistinct(a[1..], b[1..]);
        forall j | 1 <= j < |a| ensures a[j] != a[0] {
          SubMember(a[1..], b[1..], a[j]);
        }
      } else {
        SubDistinct(a, b[1..]);
      }
    }
  }

  lemma {:induction false} SubSpread(a: seq<nat>, b: seq<nat>, inc: seq<nat>)
    requires Sub(a, b) && Spread(b, inc)
    ensures Spread(a, inc)
    decreases b
  {
    if a != [] {
      if a[0] == b[0] && Sub(a[1..], b[1..]) {
        SubLow(a[1..], b[1..], a[0]);
        SubSpread(a[1..], b[1..], inc);
      } else {
        SubSpread(a, b[1..], inc);
      }
    }
  }

  /** What is forgotten although it was delivered is far behind. */
  ghost predicate Harmless(p: Picture, done: seq<nat>) {
    forall i | 0 <= i < |p.out| && p.out[i] in p.done && p.out[i] !in done ::
      p.top.Some? && p.out[i] + LOOKBACK < p.top.value
  }

  lemma CoveredIff(p: Picture, done: seq<nat>)
    requires Once(p) && p.top.Some? && Sub(done, p.done)
    ensures Covered(p.out, done, p.top.value) <==> Harmless(p, done)
  {
    forall x | x in done ensures x in p.done { SubMember(done, p.done, x); }
  }

  /** Forgetting cached positions keeps the invariant exactly when it is harmless. */
  lemma ForgetKeeps(p: Picture, done: seq<nat>)
    requires Once(p) && Sub(done, p.done)
    ensures Once(p.(done := done)) <==> Harmless(p, done)
  {
    if p.top.Some? {
      CoveredIff(p, done);
      SubLow(done, p.done, 0);
      SubDistinct(done, p.done);
      SubSpread(done, p.done, p.inc);
      forall x | x in done ensures x in p.done { SubMember(done, p.done, x); }
      ForgetParts(p, done);
    }
  }

  lemma ForgetParts(p: Picture, done: seq<nat>)
    requires Once(p) && p.top.Some? && (forall x | x in done :: x in p.done)
    requires |done| <= CACHE && Distinct(done) && Spread(done, p.inc)
    ensures Once(p.(done := done)) <==> Covered(p.out, done, p.top.value)
  {
    forall i | 0 <= i < |done| ensures done[i] < p.top.value + 1 {
      assert done[i] in p.done;
    }
    assert Apart(p.inc, done, p.out);
    if Covered(p.out, done, p.top.value) { OnceParts(p.top.value, p.inc, done, p.out); }
  }
}
