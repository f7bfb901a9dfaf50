/**
 The deficit-round-robin scheduler of tox-sequenced (`PriorityScheduler`): five
 priority levels, each with a queue of message ids, a byte deficit and a flag that
 says whether the next visit adds a quantum.

 `Visit` is one turn of the outer loop of `next_message`; the readiness closure is
 a function from message id to the size of its next fragment.
 */
module Scheduler {
  import opened Wrappers
  import opened Sequences

  const NUM_PRIORITIES: nat := 5
  const DEFICIT_CAP: int := 16384
  const QUANTUMS: seq<int> := [4096, 2048, 1500, 1024, 512]

  type Ready = nat -> Option<nat>

  datatype State = State(deficits: seq<int>, queues: seq<seq<nat>>, levels: seq<nat>, needsQuantum: seq<bool>)

  /** A level with messages is active, exactly once; deficits stay within the cap; ids are queued once. */
  ghost predicate Ok(s: State) {
    && |s.deficits| == |s.queues| == |s.needsQuantum| == NUM_PRIORITIES
    && (forall p | 0 <= p < NUM_PRIORITIES :: 0 <= s.deficits[p] <= DEFICIT_CAP)
    && LevelsOk(s.levels, s.queues)
    && (forall p | 0 <= p < NUM_PRIORITIES :: Distinct(s.queues[p]))
  }

  function Rotate(q: seq<nat>, k: nat): seq<nat>
    requires k <= |q|
  {
    q[k..] + q[..k]
  }

  /** Index of the first message that has something to send. */
  function FirstReady(q: seq<nat>, ready: Ready): (r: Option<nat>)
    ensures r.None? ==> forall i | 0 <= i < |q| :: ready(q[i]).None?
    ensures r.Some? ==> r.value < |q| && ready(q[r.value]).Some? && forall i | 0 <= i < r.value :: ready(q[i]).None?
  {
    if q == [] then None
    else if ready(q[0]).Some? then Some(0)
    else match FirstReady(q[1..], ready)
         case None => None
         case Some(i) => assert forall j | 0 < j <= i :: q[j] == q[1..][j - 1]; Some(i + 1)
  }

  function Min(a: int, b: int): int { if a <= b then a else b }

  /** The quantum is added, up to the cap, only when the flag asks for it. */
  function Refill(s: State, p: nat): int
    requires p < |s.deficits| == |s.needsQuantum| == NUM_PRIORITIES
  {
    if s.needsQuantum[p] then Min(s.deficits[p] + QUANTUMS[p], DEFICIT_CAP) else s.deficits[p]
  }

  /** One visit to the level at the front. */
  function Visit(s: State, ready: Ready): (r: (State, Option<nat>))
    requires Ok(s) && s.levels != []
  {
    var p, rest := s.levels[0], s.levels[1..];
    var queue := s.queues[p];
    if queue == [] then
      (State(s.deficits[p := 0], s.queues, rest, s.needsQuantum[p := true]), None)
    else
      var deficit := Refill(s, p);
      match FirstReady(queue, ready)
      case None =>
        (State(s.deficits[p := deficit], s.queues, rest + [p], s.needsQuantum[p := true]), None)
      case Some(k) =>
        var size := ready(queue[k]).value;
        if deficit >= size then
          var left := deficit - size;
          (State(s.deficits[p := left], s.queues[p := Rotate(queue, k + 1)],
                 if left > 0 then [p] + rest else rest + [p], s.needsQuantum[p := left <= 0]), Some(queue[k]))
        else
          (State(s.deficits[p := deficit], s.queues[p := Rotate(queue, k)], rest + [p], s.needsQuantum[p := true]),
           None)
  }

  lemma RotateDistinct(q: seq<nat>, k: nat)
    requires k <= |q| && Distinct(q)
    ensures Distinct(Rotate(q, k)) && |Rotate(q, k)| == |q|
  {
  }

  /** Taking the front level off, or moving it to either end, keeps the levels distinct. */
  lemma LevelsMoved(levels: seq<nat>)
    requires levels != [] && Distinct(levels)
    ensures var p, rest := levels[0], levels[1..];
            && Distinct(rest) && Distinct(rest + [p]) && [p] + rest == levels && p !in rest
            && forall q: nat :: (q in rest + [p] <==> q in levels) && (q in rest <==> q in levels && q != p)
  {
    assert levels == [levels[0]] + levels[1..];
  }

  ghost predicate LevelsOk(levels: seq<nat>, queues: seq<seq<nat>>)
    requires |queues| == NUM_PRIORITIES
  {
    && (forall i | 0 <= i < |levels| :: levels[i] < NUM_PRIORITIES) && Distinct(levels)
    && (forall p | 0 <= p < NUM_PRIORITIES && queues[p] != [] :: p in levels)
  }

  lemma VisitKeepsLevels(s: State, ready: Ready)
    requires Ok(s) && s.levels != []
    ensures LevelsOk(Visit(s, ready).0.levels, Visit(s, ready).0.queues)
  {
    LevelsMoved(s.levels);
  }

  lemma VisitKeepsOk(s: State, ready: Ready)
    requires Ok(s) && s.levels != []
    ensures Ok(Visit(s, ready).0)
  {
    VisitKeepsLevels(s, ready);
    VisitKeepsDeficits(s, ready);
    VisitKeepsQueues(s, ready);
  }

  lemma VisitKeepsDeficits(s: State, ready: Ready)
    requires Ok(s) && s.levels != []
    ensures var t := Visit(s, ready).0;
            && |t.deficits| == |t.queues| == |t.needsQuantum| == NUM_PRIORITIES
            && forall p | 0 <= p < NUM_PRIORITIES :: 0 <= t.deficits[p] <= DEFICIT_CAP
  {
  }

  lemma VisitKeepsQueues(s: State, ready: Ready)
    requires Ok(s) && s.levels != []
    ensures var t := Visit(s, ready).0;
            |t.queues| == NUM_PRIORITIES && forall p | 0 <= p < NUM_PRIORITIES :: Distinct(t.queues[p])
  {
    var p := s.levels[0];
    var k := FirstReady(s.queues[p], ready);
    if k.Some? {
      RotateDistinct(s.queues[p], k.value);
      RotateDistinct(s.queues[p], k.value + 1);
    }
  }

  /** At most `n` visits, stopping at the first message served. */
  function Visits(s: State, ready: Ready, n: nat): (r: (State, Option<nat>))
    requires Ok(s)
    ensures Ok(r.0)
    decreases n
  {
    if n == 0 || s.levels == [] then (s, None)
    else
      VisitKeepsOk(s, ready);
      var r := Visit(s, ready);
      if r.1.Some? then r else Visits(r.0, ready, n - 1)
  }

  lemma VisitsStep(s: State, ready: Ready, n: nat)
    requires Ok(s) && s.levels != [] && n > 0
    ensures Ok(Visit(s, ready).0)
    ensures Visits(s, ready, n) ==
            if Visit(s, ready).1.Some? then Visit(s, ready) else Visits(Visit(s, ready).0, ready, n - 1)
  {
    VisitKeepsOk(s, ready);
  }

  lemma VisitsEnd(s: State, ready: Ready, n: nat)
    requires Ok(s) && (n == 0 || s.levels == [])
    ensures Visits(s, ready, n) == (s, None)
  {
  }

  /** `next_message`: as many visits as there are active levels. */
  function NextCall(s: State, ready: Ready): (r: (State, Option<nat>))
    requires Ok(s)
    ensures Ok(r.0)
  {
    Visits(s, ready, |s.levels|)
  }

  // ------------------------------------------------------------ no starvation

  /** Every queued message has between 1 and 16384 bytes to send. */
  ghost predicate AllReady(s: State, ready: Ready)
    requires Ok(s)
  {
    forall p, i | 0 <= p < NUM_PRIORITIES && 0 <= i < |s.queues[p]| ::
      ready(s.queues[p][i]).Some? && 1 <= ready(s.queues[p][i]).value <= DEFICIT_CAP
  }

  function IndexOf(s: seq<nat>, x: nat): (i: nat)
    requires x in s
    ensures i < |s| && s[i] == x && forall j | 0 <= j < i :: s[j] != x
  {
    if s[0] == x then 0 else 1 + IndexOf(s[1..], x)
  }

  lemma IndexOfUnique(s: seq<nat>, x: nat, i: nat)
    requires Distinct(s) && i < |s| && s[i] == x
    ensures x in s && IndexOf(s, x) == i
  {
  }

  /** Visits that level q may take without serving: each adds a quantum, but for one that only asks for it. */
  function Wait(s: State, q: nat): int
    requires q < |s.deficits| == |s.needsQuantum| == NUM_PRIORITIES
  {
    (DEFICIT_CAP - s.deficits[q]) / QUANTUMS[q] + if s.needsQuantum[q] then 0 else 1
  }

  /** One more than the waits of a level can be: 6, 10, 12, 18 and 34. */
  function Waits(q: nat): nat
    requires q < NUM_PRIORITIES
  {
    DEFICIT_CAP / QUANTUMS[q] + 2
  }

  /** Visits the front level can still take before it moves to the back. */
  function FrontBudget(s: State): int
    requires |s.deficits| == |s.needsQuantum| && s.levels != [] && s.levels[0] < |s.deficits|
  {
    var p := s.levels[0];
    if s.needsQuantum[p] then DEFICIT_CAP + 2 else s.deficits[p] + 1
  }

  /** Lexicographic packing: waits stay below `w`, places below 5, budgets below 16387. */
  function Pack(w: nat, j: nat, wait: int, place: int, budget: int): int {
    ((Times(j, w) + wait) * 5 + place) * 16387 + budget
  }

  /** `j * w`, by addition. */
  function Times(j: nat, w: nat): nat {
    if j == 0 then 0 else Times(j - 1, w) + w
  }

  lemma {:induction false} TimesIsProduct(j: nat, w: nat)
    ensures Times(j, w) == j * w
  {
    if j > 0 {
      TimesIsProduct(j - 1, w);
      assert j * w == (j - 1) * w + w;
    }
  }

  /** Queue position, then waits of the level, then its place among the levels, then the front level's budget. */
  function Measure(s: State, q: nat, m: nat): int
    requires q < |s.queues| == |s.deficits| == |s.needsQuantum| == NUM_PRIORITIES && m in s.queues[q] && q in s.levels
    requires s.levels[0] < |s.deficits|
  {
    Pack(Waits(q), IndexOf(s.queues[q], m), Wait(s, q), IndexOf(s.levels, q), FrontBudget(s))
  }

  lemma {:induction false} DistinctLevels(s: seq<nat>, n: nat)
    requires Distinct(s) && forall i | 0 <= i < |s| :: s[i] < n
    ensures |s| <= n
    decreases n
  {
    if k :| 0 <= k < |s| && s[k] == n - 1 {
      DistinctLevels(s[..k] + s[k + 1..], n - 1);
    } else if s != [] {
      assert s[0] < n - 1;
      DistinctLevels(s, n - 1);
    }
  }

  /** Lexicographic decrease of (j, v, i, f) as decrease of the packed number. */
  lemma Lex(w: nat, j: nat, v: int, i: int, f: int, j': nat, v': int, i': int, f': int)
    requires 0 <= v < w && 0 <= i < 5 && 0 <= f < 16387 && 0 <= v' < w && 0 <= i' < 5 && 0 <= f' < 16387
    requires j' < j || (j' == j && (v' < v || (v' == v && (i' < i || (i' == i && f' < f)))))
    ensures Pack(w, j', v', i', f') < Pack(w, j, v, i, f)
  {
    if j' < j { Widen(w, j', j); }
  }

  lemma Bounded(w: nat, n: nat, j: nat, v: int, i: int, f: int)
    requires 0 <= v < w && 0 <= i < 5 && 0 <= f < 16387 && j < n
    ensures Pack(w, j, v, i, f) < n * w * 81_935
  {
    Widen(w, j, n);
    TimesIsProduct(n, w);
  }

  lemma {:induction false} Widen(w: nat, j': nat, j: nat)
    requires j' < j
    ensures Times(j', w) + w <= Times(j, w)
  {
    if j' < j - 1 { Widen(w, j', j - 1); }
  }

  lemma MeasureParts(s: State, q: nat, m: nat)
    requires Ok(s) && q < NUM_PRIORITIES && m in s.queues[q]
    ensures q in s.levels && s.levels != [] && s.levels[0] < NUM_PRIORITIES
    ensures 0 <= Wait(s, q) < Waits(q) && IndexOf(s.levels, q) < 5 && 0 <= FrontBudget(s) < 16387
  {
    DistinctLevels(s.levels, NUM_PRIORITIES);
  }

  /** The queues are turned, never changed. */
  ghost predicate SameQueues(s: State, t: State) {
    && |s.queues| == |t.queues|
    && forall p | 0 <= p < |s.queues| ::
         |s.queues[p]| == |t.queues[p]| && forall x: nat :: x in t.queues[p] <==> x in s.queues[p]
  }

  lemma SameQueuesTrans(s: State, t: State, u: State)
    requires SameQueues(s, t) && SameQueues(t, u)
    ensures SameQueues(s, u)
  {
  }

  lemma RotateMembers(q: seq<nat>, k: nat)
    requires k <= |q|
    ensures |Rotate(q, k)| == |q| && forall x: nat :: x in Rotate(q, k) <==> x in q
  {
    assert q == q[..k] + q[k..];
  }

  lemma VisitTurns(s: State, ready: Ready)
    requires Ok(s) && s.levels != []
    ensures SameQueues(s, Visit(s, ready).0)
  {
    var queue := s.queues[s.levels[0]];
    var k := FirstReady(queue, ready);
    if k.Some? {
      RotateMembers(queue, k.value);
      RotateMembers(queue, k.value + 1);
    }
  }

  lemma QuantumSaved(q: nat, quantum: int, d: int)
    requires q < NUM_PRIORITIES && quantum == QUANTUMS[q] && d + quantum <= DEFICIT_CAP
    ensures (DEFICIT_CAP - (d + quantum)) / quantum == (DEFICIT_CAP - d) / quantum - 1
  {
    assert quantum == 4096 || quantum == 2048 || quantum == 1500 || quantum == 1024 || quantum == 512;
  }

  /** A visit that serves nothing asks for a quantum or has saved one. */
  lemma SavesUp(s: State, ready: Ready, q: nat)
    requires Ok(s) && AllReady(s, ready) && q < NUM_PRIORITIES && s.queues[q] != []
    requires s.levels != [] && s.levels[0] == q && Visit(s, ready).1.None?
    ensures Visit(s, ready).0.queues[q] == s.queues[q]
    ensures Wait(Visit(s, ready).0, q) < Wait(s, q)
  {
    var d, quantum := s.deficits[q], QUANTUMS[q];
    assert FirstReady(s.queues[q], ready) == Some(0);
    assert Rotate(s.queues[q], 0) == s.queues[q];
    assert Refill(s, q) < DEFICIT_CAP;
    if s.needsQuantum[q] { QuantumSaved(q, quantum, d); }
  }

  /** A visit to the level of m serves m, or brings it forward, or saves up for its front message. */
  lemma OwnVisit(s: State, ready: Ready, q: nat, m: nat)
    requires Ok(s) && AllReady(s, ready) && q < NUM_PRIORITIES && m in s.queues[q] && q in s.levels && s.levels[0] == q
    ensures var t := Visit(s, ready);
            || t.1 == Some(m)
            || (&& m in t.0.queues[q]
                && (|| IndexOf(t.0.queues[q], m) < IndexOf(s.queues[q], m)
                    || (IndexOf(t.0.queues[q], m) == IndexOf(s.queues[q], m) && Wait(t.0, q) < Wait(s, q))))
  {
    var queue := s.queues[q];
    var t := Visit(s, ready);
    assert FirstReady(queue, ready) == Some(0);
    var j := IndexOf(queue, m);
    if t.1.None? {
      SavesUp(s, ready, q);
    } else if j > 0 {
      var turned := Rotate(queue, 1);
      RotateDistinct(queue, 1);
      assert turned[j - 1] == m;
      IndexOfUnique(turned, m, j - 1);
    }
  }

  /** Where the front level goes: away when empty, to the back, or back to the front with bytes left. */
  lemma VisitLevels(s: State, ready: Ready)
    requires Ok(s) && AllReady(s, ready) && s.levels != []
    ensures var p, rest, t := s.levels[0], s.levels[1..], Visit(s, ready).0;
            || t.levels == rest
            || t.levels == rest + [p]
            || (t.levels == s.levels && FrontBudget(t) < FrontBudget(s))
  {
    var p := s.levels[0];
    LevelsMoved(s.levels);
    if s.queues[p] != [] { assert FirstReady(s.queues[p], ready) == Some(0); }
  }

  lemma OthersUntouched(s: State, ready: Ready, q: nat)
    requires Ok(s) && s.levels != [] && q < NUM_PRIORITIES && q != s.levels[0]
    ensures var t := Visit(s, ready).0;
            t.queues[q] == s.queues[q] && t.deficits[q] == s.deficits[q] && t.needsQuantum[q] == s.needsQuantum[q]
  {
  }

  /** A visit to another level moves it behind q or spends its budget. */
  lemma OtherVisit(s: State, ready: Ready, q: nat, m: nat)
    requires Ok(s) && AllReady(s, ready) && q < NUM_PRIORITIES && m in s.queues[q] && q in s.levels && s.levels[0] != q
    requires Ok(Visit(s, ready).0)
    ensures var t := Visit(s, ready).0;
            && t.queues[q] == s.queues[q] && Wait(t, q) == Wait(s, q) && q in t.levels
            && (|| IndexOf(t.levels, q) < IndexOf(s.levels, q)
                || (IndexOf(t.levels, q) == IndexOf(s.levels, q) && FrontBudget(t) < FrontBudget(s)))
  {
    OthersUntouched(s, ready, q);
    VisitLevels(s, ready);
    NextPlace(s.levels, q);
  }

  /** Dropping the front or sending it to the back brings every other entry one place forward. */
  lemma NextPlace(levels: seq<nat>, q: nat)
    requires Distinct(levels) && q in levels && levels[0] != q
    ensures q in levels[1..] && IndexOf(levels[1..], q) == IndexOf(levels, q) - 1
    ensures q in levels[1..] + [levels[0]] && IndexOf(levels[1..] + [levels[0]], q) == IndexOf(levels, q) - 1
  {
    var i, rest := IndexOf(levels, q), levels[1..];
    LevelsMoved(levels);
    assert rest[i - 1] == q && (rest + [levels[0]])[i - 1] == q;
    IndexOfUnique(rest, q, i - 1);
    IndexOfUnique(rest + [levels[0]], q, i - 1);
  }

  lemma VisitProgress(s: State, ready: Ready, q: nat, m: nat)
    requires Ok(s) && AllReady(s, ready) && q < NUM_PRIORITIES && m in s.queues[q]
    ensures s.levels != [] && q in s.levels
    ensures var t := Visit(s, ready);
            && Ok(t.0) && AllReady(t.0, ready) && SameQueues(s, t.0)
            && m in t.0.queues[q] && q in t.0.levels
            && (t.1 == Some(m) || Measure(t.0, q, m) < Measure(s, q, m))
  {
    MeasureParts(s, q, m);
    VisitKeepsOk(s, ready);
    VisitTurns(s, ready);
    var t := Visit(s, ready);
    forall p, i | 0 <= p < NUM_PRIORITIES && 0 <= i < |t.0.queues[p]|
      ensures ready(t.0.queues[p][i]).Some? && 1 <= ready(t.0.queues[p][i]).value <= DEFICIT_CAP
    {
      assert t.0.queues[p][i] in t.0.queues[p] && t.0.queues[p][i] in s.queues[p];
    }
    MeasureParts(t.0, q, m);
    if s.levels[0] == q { OwnVisit(s, ready, q, m); } else { OtherVisit(s, ready, q, m); }
    if t.1 != Some(m) {
      Lex(Waits(q), IndexOf(s.queues[q], m), Wait(s, q), IndexOf(s.levels, q), FrontBudget(s),
          IndexOf(t.0.queues[q], m), Wait(t.0, q), IndexOf(t.0.levels, q), FrontBudget(t.0));
    }
  }

  lemma {:induction false} VisitsTurn(s: State, ready: Ready, n: nat)
    requires Ok(s)
    ensures SameQueues(s, Visits(s, ready, n).0)
    decreases n
  {
    if n > 0 && s.levels != [] {
      VisitTurns(s, ready);
      VisitsStep(s, ready, n);
      VisitsTurn(Visit(s, ready).0, ready, n - 1);
      SameQueuesTrans(s, Visit(s, ready).0, Visits(Visit(s, ready).0, ready, n - 1).0);
    }
  }

  /** m was served, or is still queued with a measure of at most `bound`. */
  ghost predicate Advanced(t: (State, Option<nat>), q: nat, m: nat, bound: int) {
    Ok(t.0) && q < NUM_PRIORITIES && m in t.0.queues[q] && q in t.0.levels
      && (t.1 == Some(m) || Measure(t.0, q, m) <= bound)
  }

  /** A whole call serves m or strictly lowers the measure. */
  lemma {:induction false} VisitsProgress(s: State, ready: Ready, q: nat, m: nat, n: nat)
    requires Ok(s) && AllReady(s, ready) && q < NUM_PRIORITIES && m in s.queues[q] && q in s.levels
    ensures Advanced(Visits(s, ready, n), q, m, Measure(s, q, m) - if n > 0 then 1 else 0)
    decreases n
  {
    if n > 0 {
      VisitProgress(s, ready, q, m);
      VisitsStep(s, ready, n);
      var t := Visit(s, ready);
      if t.1.None? { VisitsProgress(t.0, ready, q, m, n - 1); }
    }
  }

  /** The answers of a run of calls, each with its own readiness. */
  function Run(s: State, calls: seq<Ready>): (r: seq<Option<nat>>)
    requires Ok(s)
    ensures |r| == |calls|
    decreases |calls|
  {
    if calls == [] then []
    else var t := NextCall(s, calls[0]); [t.1] + Run(t.0, calls[1..])
  }

  /** No call's readiness leaves a queued message out. */
  ghost predicate AlwaysReady(s: State, calls: seq<Ready>)
    requires Ok(s)
  {
    forall k | 0 <= k < |calls| :: AllReady(s, calls[k])
  }

  /** With every queued message always ready, each one is served within `Measure` calls. */
  lemma {:induction false} ServedWithinMeasure(s: State, calls: seq<Ready>, q: nat, m: nat)
    requires Ok(s) && AlwaysReady(s, calls) && q < NUM_PRIORITIES && m in s.queues[q]
    requires q in s.levels && |calls| > Measure(s, q, m)
    ensures Some(m) in Run(s, calls)
    decreases |calls|
  {
    MeasureParts(s, q, m);
    assert |calls| > 0 && AllReady(s, calls[0]);
    VisitsProgress(s, calls[0], q, m, |s.levels|);
    VisitsTurn(s, calls[0], |s.levels|);
    var t := NextCall(s, calls[0]);
    if t.1 != Some(m) {
      forall k | 0 <= k < |calls[1..]| ensures AllReady(t.0, calls[1..][k]) {
        ReadyTransfers(s, t.0, calls[k + 1]);
      }
      ServedWithinMeasure(t.0, calls[1..], q, m);
    }
  }

  lemma ReadyTransfers(s: State, t: State, ready: Ready)
    requires Ok(s) && Ok(t) && SameQueues(s, t) && AllReady(s, ready)
    ensures AllReady(t, ready)
  {
    forall p, i | 0 <= p < NUM_PRIORITIES && 0 <= i < |t.queues[p]|
      ensures ready(t.queues[p][i]).Some? && 1 <= ready(t.queues[p][i]).value <= DEFICIT_CAP
    {
      assert t.queues[p][i] in t.queues[p] && t.queues[p][i] in s.queues[p];
    }
  }

  /**
   No starvation: with every queued message always ready, each is served within a bound that depends
   only on the length of its queue and the quantum of its level.  81,935 is five turns of at most
   16,387 visits each.
   */
  lemma NoStarvation(s: State, calls: seq<Ready>, q: nat, m: nat)
    requires Ok(s) && AlwaysReady(s, calls) && q < NUM_PRIORITIES && m in s.queues[q]
    requires |calls| >= |s.queues[q]| * Waits(q) * 81_935
    ensures Some(m) in Run(s, calls)
  {
    MeasureParts(s, q, m);
    Bounded(Waits(q), |s.queues[q]|, IndexOf(s.queues[q], m), Wait(s, q), IndexOf(s.levels, q), FrontBudget(s));
    ServedWithinMeasure(s, calls, q, m);
  }

  /** In numbers, for one message alone on the lowest level. */
  lemma LowestLevelBound(s: State, calls: seq<Ready>, m: nat)
    requires Ok(s) && AlwaysReady(s, calls) && s.queues[4] == [m] && |calls| >= 2_785_790
    ensures Some(m) in Run(s, calls)
  {
    NoStarvation(s, calls, 4, m);
  }

  // ---------------------------------------------------------- every byte is paid for

  /** The message was queued and ready at level `p`, and its size came off the level's deficit, after its quantum. */
  ghost predicate Charged(s: State, t: State, ready: Ready, p: nat, m: nat)
    requires Ok(s) && Ok(t)
  {
    && p < NUM_PRIORITIES && p in s.levels && m in s.queues[p] && ready(m).Some?
    && t.deficits[p] + ready(m).value == s.deficits[p] + Granted(s, p)
    && (t.needsQuantum[p] <==> t.deficits[p] == 0)
  }

  /** What the level is owed at its turn: a quantum if it asks for one, up to the cap. */
  function Granted(s: State, p: nat): int
    requires p < |s.deficits| == |s.needsQuantum| == NUM_PRIORITIES
  {
    if !s.needsQuantum[p] then 0
    else if s.deficits[p] + QUANTUMS[p] <= DEFICIT_CAP then QUANTUMS[p]
    else DEFICIT_CAP - s.deficits[p]
  }

  /** How many levels a call looks at. */
  function Looks(s: State, ready: Ready, n: nat): nat
    requires Ok(s)
    decreases n
  {
    if n == 0 || s.levels == [] then 0
    else
      VisitKeepsOk(s, ready);
      var r := Visit(s, ready);
      if r.1.Some? then 1 else 1 + Looks(r.0, ready, n - 1)
  }

  /** The level gets its turn in this call. */
  predicate Reached(s: State, ready: Ready, n: nat, p: nat)
    requires Ok(s)
  {
    p in s.levels && IndexOf(s.levels, p) < Looks(s, ready, n)
  }

  lemma VisitCharges(s: State, ready: Ready)
    requires Ok(s) && s.levels != [] && Visit(s, ready).1.Some?
    ensures Ok(Visit(s, ready).0) && Charged(s, Visit(s, ready).0, ready, s.levels[0], Visit(s, ready).1.value)
  {
    VisitKeepsOk(s, ready);
  }

  /** The levels that a visit leaves in front are those behind the first, untouched. */
  lemma NextInLine(s: State, ready: Ready, n: nat)
    requires Ok(s) && s.levels != [] && Visit(s, ready).1.None? && 0 < n <= |s.levels|
    ensures var t := Visit(s, ready).0;
            && n - 1 <= |t.levels| && t.levels[..n - 1] == s.levels[1..][..n - 1]
            && s.levels[0] !in t.levels[..n - 1]
  {
    LevelsMoved(s.levels);
  }

  /** The level that serves is looked at once in the call, so it is charged on what it had at the start. */
  lemma {:induction false} VisitsCharge(s: State, ready: Ready, n: nat) returns (p: nat)
    requires Ok(s) && n <= |s.levels| && Visits(s, ready, n).1.Some?
    ensures Charged(s, Visits(s, ready, n).0, ready, p, Visits(s, ready, n).1.value) && p in s.levels[..n]
    decreases n
  {
    VisitsStep(s, ready, n);
    if Visit(s, ready).1.Some? {
      p := s.levels[0];
      VisitCharges(s, ready);
      assert p == s.levels[..n][0];
    } else {
      var t := Visit(s, ready).0;
      NextInLine(s, ready, n);
      p := VisitsCharge(t, ready, n - 1);
      FrontOf(s.levels, n, p);
      ChargedBefore(s, Visits(t, ready, n - 1).0, ready, p, Visits(t, ready, n - 1).1.value);
    }
  }

  lemma FrontOf(levels: seq<nat>, n: nat, p: nat)
    requires 0 < n <= |levels| && p in levels[1..][..n - 1]
    ensures p in levels[..n] && p in levels
  {
    assert levels[1..][..n - 1] == levels[1..n] && levels[..n] == [levels[0]] + levels[1..n];
  }

  /** A visit to another level changes nothing that a charge is about. */
  lemma ChargedBefore(s: State, u: State, ready: Ready, p: nat, m: nat)
    requires Ok(s) && Ok(u) && s.levels != [] && p in s.levels && p != s.levels[0] && Ok(Visit(s, ready).0)
    requires Charged(Visit(s, ready).0, u, ready, p, m)
    ensures Charged(s, u, ready, p, m)
  {
    OthersUntouched(s, ready, p);
  }

  /** A served message was queued and ready, and its level paid its size. */
  lemma CallCharges(s: State, ready: Ready)
    requires Ok(s) && NextCall(s, ready).1.Some?
    ensures exists p :: Charged(s, NextCall(s, ready).0, ready, p, NextCall(s, ready).1.value)
  {
    var p := VisitsCharge(s, ready, |s.levels|);
  }

  /** No message is queued at two levels. */
  ghost predicate Separate(s: State)
    requires |s.queues| == NUM_PRIORITIES
  {
    forall p, q, m: nat | 0 <= p < q < NUM_PRIORITIES && m in s.queues[p] :: m !in s.queues[q]
  }

  lemma SeparateKept(s: State, t: State)
    requires |s.queues| == |t.queues| == NUM_PRIORITIES && Separate(s) && SameQueues(s, t)
    ensures Separate(t)
  {
  }

  lemma SeparateUpdate(queues: seq<seq<nat>>, moved: seq<seq<nat>>, p: nat, id: nat)
    requires |queues| == |moved| == NUM_PRIORITIES && p < NUM_PRIORITIES
    requires forall j | 0 <= j < NUM_PRIORITIES && j != p :: moved[j] == Drop(queues[j], id)
    requires moved[p] == if id in queues[p] then queues[p] else queues[p] + [id]
    ensures (forall a, b, m: nat | 0 <= a < b < NUM_PRIORITIES && m in queues[a] :: m !in queues[b]) ==>
              forall a, b, m: nat | 0 <= a < b < NUM_PRIORITIES && m in moved[a] :: m !in moved[b]
  {
  }

  /** The bytes that a call sent from level `p`. */
  function Paid(served: Option<nat>, queue: seq<nat>, ready: Ready): nat {
    if served.Some? && served.value in queue && ready(served.value).Some? then ready(served.value).value else 0
  }

  lemma {:induction false} LooksBound(s: State, ready: Ready, n: nat)
    requires Ok(s)
    ensures Looks(s, ready, n) <= n
    decreases n
  {
    if n > 0 && s.levels != [] {
      VisitKeepsOk(s, ready);
      LooksBound(Visit(s, ready).0, ready, n - 1);
    }
  }

  /** The first level's own visit: it spends no more than it has and is granted. */
  lemma VisitBalances(s: State, ready: Ready, p: nat)
    requires Ok(s) && Separate(s) && s.levels != [] && p < NUM_PRIORITIES
    ensures var t := Visit(s, ready);
            t.0.deficits[p] + Paid(t.1, s.queues[p], ready)
            <= s.deficits[p] + if p == s.levels[0] then Granted(s, p) else 0
  {
  }

  lemma {:induction false} VisitsBalance(s: State, ready: Ready, n: nat, p: nat)
    requires Ok(s) && Separate(s) && n <= |s.levels| && p < NUM_PRIORITIES
    ensures var t := Visits(s, ready, n);
            t.0.deficits[p] + Paid(t.1, s.queues[p], ready)
            <= s.deficits[p] + if Reached(s, ready, n, p) then Granted(s, p) else 0
    decreases n
  {
    if n > 0 {
      VisitsStep(s, ready, n);
      VisitBalances(s, ready, p);
      var t := Visit(s, ready);
      if t.1.None? {
        VisitTurns(s, ready);
        SeparateKept(s, t.0);
        NextInLine(s, ready, n);
        VisitsBalance(t.0, ready, n - 1, p);
        ReachStep(s, ready, n, p);
        if p != s.levels[0] { OthersUntouched(s, ready, p); }
      }
    }
  }

  /** After a visit that serves nothing, its level is not reached again in this call, and the others as before. */
  lemma ReachStep(s: State, ready: Ready, n: nat, p: nat)
    requires Ok(s) && s.levels != [] && 0 < n <= |s.levels| && Visit(s, ready).1.None? && Ok(Visit(s, ready).0)
    ensures p == s.levels[0] ==> Reached(s, ready, n, p) && !Reached(Visit(s, ready).0, ready, n - 1, p)
    ensures p != s.levels[0] ==> Reached(s, ready, n, p) == Reached(Visit(s, ready).0, ready, n - 1, p)
  {
    LooksStep(s, ready, n);
    VisitLevelsNone(s, ready);
    PlaceStep(s.levels, Visit(s, ready).0.levels, p);
  }

  lemma LooksStep(s: State, ready: Ready, n: nat)
    requires Ok(s) && s.levels != [] && n > 0 && Visit(s, ready).1.None?
    ensures Ok(Visit(s, ready).0)
    ensures Looks(s, ready, n) == 1 + Looks(Visit(s, ready).0, ready, n - 1) <= n
  {
    VisitKeepsOk(s, ready);
    LooksBound(s, ready, n);
  }

  lemma PlaceStep(levels: seq<nat>, after: seq<nat>, p: nat)
    requires levels != [] && Distinct(levels) && (after == levels[1..] || after == levels[1..] + [levels[0]])
    ensures p == levels[0] ==> IndexOf(levels, p) == 0 && (p in after ==> IndexOf(after, p) == |levels| - 1)
    ensures p != levels[0] ==>
              (p in levels <==> p in after) && (p in after ==> IndexOf(after, p) == IndexOf(levels, p) - 1)
  {
    LevelsMoved(levels);
    if p != levels[0] {
      if p in levels { NextPlace(levels, p); }
    } else if p in after {
      IndexOfUnique(after, p, |after| - 1);
    }
  }

  /** A visit that serves nothing drops the level or sends it to the back. */
  lemma VisitLevelsNone(s: State, ready: Ready)
    requires Ok(s) && s.levels != [] && Visit(s, ready).1.None?
    ensures var rest, t := s.levels[1..], Visit(s, ready).0; t.levels == rest || t.levels == rest + [s.levels[0]]
  {
  }

  /** One call: what a level sends and keeps comes from what it had and, if it gets its turn, from its quantum. */
  lemma CallBalances(s: State, ready: Ready, p: nat)
    requires Ok(s) && Separate(s) && p < NUM_PRIORITIES
    ensures var t := NextCall(s, ready);
            && Separate(t.0)
            && t.0.deficits[p] + Paid(t.1, s.queues[p], ready)
               <= s.deficits[p] + if Reached(s, ready, |s.levels|, p) then Granted(s, p) else 0
  {
    VisitsBalance(s, ready, |s.levels|, p);
    VisitsTurn(s, ready, |s.levels|);
    SeparateKept(s, NextCall(s, ready).0);
  }

  /** The bytes sent from level `p` over a run of calls. */
  ghost function Bytes(s: State, calls: seq<Ready>, p: nat): nat
    requires Ok(s) && p < NUM_PRIORITIES
    decreases |calls|
  {
    if calls == [] then 0
    else
      var t := NextCall(s, calls[0]);
      Paid(t.1, s.queues[p], calls[0]) + Bytes(t.0, calls[1..], p)
  }

  /** How often the level got its turn while it asked for a quantum. */
  ghost function Turns(s: State, calls: seq<Ready>, p: nat): nat
    requires Ok(s) && p < NUM_PRIORITIES
    decreases |calls|
  {
    if calls == [] then 0
    else
      (if s.needsQuantum[p] && Reached(s, calls[0], |s.levels|, p) then 1 else 0)
      + Turns(NextCall(s, calls[0]).0, calls[1..], p)
  }

  /** Over any run, a level sends at most what it had saved and a quantum for each turn at which it asked for one. */
  lemma {:induction false} QuantumsPay(s: State, calls: seq<Ready>, p: nat)
    requires Ok(s) && Separate(s) && p < NUM_PRIORITIES
    ensures Bytes(s, calls, p) <= s.deficits[p] + Turns(s, calls, p) * QUANTUMS[p]
    decreases |calls|
  {
    if calls != [] {
      var t := NextCall(s, calls[0]);
      CallBalances(s, calls[0], p);
      QuantumsPay(t.0, calls[1..], p);
      OneMore(Turns(t.0, calls[1..], p), QUANTUMS[p]);
    }
  }

  lemma OneMore(n: nat, q: int)
    ensures (1 + n) * q == q + n * q
  {
  }

  /** Two busy levels: message 0 at the highest and message 1 at the lowest. */
  function Busy(d0: int, d4: int, levels: seq<nat>, ask0: bool, ask4: bool): State {
    State([d0, 0, 0, 0, d4], [[0], [], [], [], [1]], levels, [ask0, true, true, true, ask4])
  }

  lemma BusyOk(d0: int, d4: int, levels: seq<nat>, ask0: bool, ask4: bool)
    requires 0 <= d0 <= DEFICIT_CAP && 0 <= d4 <= DEFICIT_CAP && (levels == [0, 4] || levels == [4, 0])
    ensures Ok(Busy(d0, d4, levels, ask0, ask4))
  {
  }

  lemma BusyUpdates(d0: int, d4: int, x: int, levels: seq<nat>, ask0: bool, ask4: bool, ask: bool)
    ensures var s := Busy(d0, d4, levels, ask0, ask4);
            && s.deficits[0 := x] == [x, 0, 0, 0, d4] && s.deficits[4 := x] == [d0, 0, 0, 0, x]
            && s.queues[0 := [0]] == s.queues && s.queues[4 := [1]] == s.queues
            && s.needsQuantum[0 := ask] == [ask, true, true, true, ask4]
            && s.needsQuantum[4 := ask] == [ask0, true, true, true, ask]
  {
  }

  lemma OnlyOne(m: nat, ready: Ready)
    requires ready(m).Some?
    ensures FirstReady([m], ready) == Some(0) && Rotate([m], 0) == [m] && Rotate([m], 1) == [m]
  {
  }

  /** The highest level in front: it serves while its deficit lasts. */
  lemma VisitHigh(d0: int, ask0: bool, ready: Ready)
    requires ready(0) == Some(1353) && 0 <= d0 <= DEFICIT_CAP - 4096
    ensures var s, d := Busy(d0, 0, [0, 4], ask0, true), if ask0 then d0 + 4096 else d0;
            && Ok(s)
            && (d > 1353 ==> Visit(s, ready) == (Busy(d - 1353, 0, [0, 4], false, true), Some(0)))
            && (d < 1353 ==> Visit(s, ready) == (Busy(d, 0, [4, 0], true, true), None))
  {
    var d := if ask0 then d0 + 4096 else d0;
    BusyOk(d0, 0, [0, 4], ask0, true);
    OnlyOne(0, ready);
    BusyUpdates(d0, 0, d - 1353, [0, 4], ask0, true, false);
    BusyUpdates(d0, 0, d, [0, 4], ask0, true, true);
    assert [0, 4][1..] == [4] && [0] + [4] == [0, 4] && [4] + [0] == [4, 0];
  }

  /** The lowest level in front: its quantum of 512 pays for 500 bytes. */
  lemma VisitLow(d0: int, ready: Ready)
    requires ready(1) == Some(500) && 0 <= d0 <= DEFICIT_CAP
    ensures Ok(Busy(d0, 0, [4, 0], true, true))
    ensures Visit(Busy(d0, 0, [4, 0], true, true), ready) == (Busy(d0, 12, [4, 0], true, false), Some(1))
  {
    BusyOk(d0, 0, [4, 0], true, true);
    OnlyOne(1, ready);
    BusyUpdates(d0, 0, 12, [4, 0], true, true, false);
    assert [4, 0][1..] == [0] && [4] + [0] == [4, 0];
  }

  lemma CallHigh(d0: int, ask0: bool, ready: Ready)
    requires ready(0) == Some(1353) && 0 <= d0 <= DEFICIT_CAP - 4096 && (if ask0 then d0 + 4096 else d0) > 1353
    ensures var s, d := Busy(d0, 0, [0, 4], ask0, true), if ask0 then d0 + 4096 else d0;
            Ok(s) && NextCall(s, ready) == (Busy(d - 1353, 0, [0, 4], false, true), Some(0))
  {
    VisitHigh(d0, ask0, ready);
    VisitsStep(Busy(d0, 0, [0, 4], ask0, true), ready, 2);
  }

  /** With too little left, the highest level gives way to the lowest within one call. */
  lemma CallLow(d0: int, ready: Ready)
    requires ready(0) == Some(1353) && ready(1) == Some(500) && 0 <= d0 < 1353
    ensures var s := Busy(d0, 0, [0, 4], false, true);
            Ok(s) && NextCall(s, ready) == (Busy(d0, 12, [4, 0], true, false), Some(1))
  {
    VisitHigh(d0, false, ready);
    VisitLow(d0, ready);
    VisitsStep(Busy(d0, 0, [0, 4], false, true), ready, 2);
    VisitsStep(Busy(d0, 0, [4, 0], true, true), ready, 1);
  }

  // ---------------------------------------------------------- the scheduler object

  /** `retain(|x| x != id)` */
  function Drop(q: seq<nat>, id: nat): (r: seq<nat>)
    ensures forall x: nat :: x in r <==> x in q && x != id
    ensures |r| <= |q|
  {
    if q == [] then []
    else
      assert q == q[..|q| - 1] + [q[|q| - 1]];
      Drop(q[..|q| - 1], id) + if q[|q| - 1] == id then [] else [q[|q| - 1]]
  }

  lemma {:induction false} DropDistinct(q: seq<nat>, id: nat)
    requires Distinct(q)
    ensures Distinct(Drop(q, id))
  {
    if q != [] {
      var init := q[..|q| - 1];
      DropDistinct(init, id);
      assert q[|q| - 1] !in init && q[|q| - 1] !in Drop(init, id);
    }
  }

  /** The inner loop: turns the queue until its front message is ready, at most once around. */
  method TurnToReady(queue: seq<nat>, ready: Ready) returns (turned: seq<nat>, found: bool)
    requires queue != []
    ensures found <==> FirstReady(queue, ready).Some?
    ensures !found ==> turned == queue
    ensures found ==> && turned == Rotate(queue, FirstReady(queue, ready).value) && turned != []
                      && turned[0] == queue[FirstReady(queue, ready).value]
                      && Rotate(turned, 1) == Rotate(queue, FirstReady(queue, ready).value + 1)
  {
    turned := queue;
    for k := 0 to |queue|
      invariant turned == Rotate(queue, k)
      invariant forall i | 0 <= i < k :: ready(queue[i]).None?
    {
      if ready(turned[0]).Some? {
        assert turned[0] == queue[k];
        assert Rotate(turned, 1) == Rotate(queue, k + 1);
        return turned, true;
      }
      turned := Rotate(turned, 1);
      assert turned == Rotate(queue, k + 1);
    }
    return turned, false;
  }

  class PriorityScheduler {
    var deficits: seq<int>
    var queues: seq<seq<nat>>
    var levels: seq<nat>
    var needsQuantum: seq<bool>

    ghost function View(): State
      reads this
    {
      State(deficits, queues, levels, needsQuantum)
    }

    constructor ()
      ensures Ok(View()) && View() == State([0, 0, 0, 0, 0], [[], [], [], [], []], [], [true, true, true, true, true])
      ensures Separate(View())
    {
      deficits, levels := [0, 0, 0, 0, 0], [];
      queues, needsQuantum := [[], [], [], [], []], [true, true, true, true, true];
    }

    method UpdateMessage(id: nat, priority: nat)
      requires Ok(View())
      modifies this
      ensures Ok(View()) && deficits == old(deficits) && (old(Separate(View())) ==> Separate(View()))
      ensures var p := Min(priority, NUM_PRIORITIES - 1);
              && p in levels && id in queues[p]
              && (forall i | 0 <= i < NUM_PRIORITIES && i != p :: queues[i] == Drop(old(queues)[i], id))
              && queues[p] == (if id in old(queues)[p] then old(queues)[p] else old(queues)[p] + [id])
              && (p in old(levels) ==> levels == old(levels) && needsQuantum == old(needsQuantum))
              && (p !in old(levels) ==> && levels == (if p <= 1 then [p] + old(levels) else old(levels) + [p])
                                        && needsQuantum == old(needsQuantum)[p := true])
    {
      var p := Min(priority, NUM_PRIORITIES - 1);
      if p !in levels {
        levels := if p <= 1 then [p] + levels else levels + [p];
        needsQuantum := needsQuantum[p := true];
      }
      Requeue(id, p);
    }

    /** Takes the message out of every other queue and appends it to its own if it is not there. */
    method Requeue(id: nat, p: nat)
      requires Ok(View()) && p < NUM_PRIORITIES && p in levels
      modifies `queues
      ensures Ok(View()) && (old(Separate(View())) ==> Separate(View()))
      ensures forall i | 0 <= i < NUM_PRIORITIES && i != p :: queues[i] == Drop(old(queues)[i], id)
      ensures queues[p] == if id in old(queues)[p] then old(queues)[p] else old(queues)[p] + [id]
    {
      var moved := queues;
      for i := 0 to NUM_PRIORITIES
        invariant |moved| == NUM_PRIORITIES
        invariant forall j | 0 <= j < NUM_PRIORITIES ::
          moved[j] == if j < i && j != p then Drop(queues[j], id) else queues[j]
      {
        if i != p { moved := moved[i := Drop(moved[i], id)]; }
      }
      if id !in moved[p] { moved := moved[p := moved[p] + [id]]; }
      forall j | 0 <= j < NUM_PRIORITIES ensures Distinct(moved[j]) { DropDistinct(queues[j], id); }
      SeparateUpdate(queues, moved, p, id);
      queues := moved;
    }

    method RemoveMessage(id: nat)
      requires Ok(View())
      modifies this
      ensures Ok(View()) && (old(Separate(View())) ==> Separate(View()))
      ensures forall p | 0 <= p < NUM_PRIORITIES :: queues[p] == Drop(old(queues)[p], id)
      ensures forall p | 0 <= p < NUM_PRIORITIES :: id !in queues[p]
      ensures forall p: nat | p < NUM_PRIORITIES && queues[p] == [] ::
        p !in levels && deficits[p] == 0 && needsQuantum[p]
    {
      for p := 0 to NUM_PRIORITIES
        invariant Ok(View())
        invariant forall j | 0 <= j < NUM_PRIORITIES ::
          queues[j] == if j < p then Drop(old(queues)[j], id) else old(queues)[j]
        invariant forall j: nat | j < p && queues[j] == [] :: j !in levels && deficits[j] == 0 && needsQuantum[j]
      {
        RemoveFrom(p, id);
      }
    }

    /** One queue of `remove_message`: an emptied level loses its deficit and its turn. */
    method RemoveFrom(p: nat, id: nat)
      requires Ok(View()) && p < NUM_PRIORITIES
      modifies this
      ensures Ok(View()) && queues == old(queues)[p := Drop(old(queues)[p], id)]
      ensures queues[p] == [] ==> p !in levels && deficits[p] == 0 && needsQuantum[p]
      ensures forall j: nat | j != p :: j in levels <==> j in old(levels)
      ensures forall j | 0 <= j < NUM_PRIORITIES && j != p ::
                deficits[j] == old(deficits)[j] && needsQuantum[j] == old(needsQuantum)[j]
    {
      DropDistinct(queues[p], id);
      DropDistinct(levels, p);
      queues := queues[p := Drop(queues[p], id)];
      if queues[p] == [] {
        deficits := deficits[p := 0];
        LevelsDrop(levels, p);
        levels := Drop(levels, p);
        needsQuantum := needsQuantum[p := true];
      }
    }

    /** One turn of the outer loop, with the inner loop turning the queue until a message is ready. */
    method VisitFront(ready: Ready) returns (served: Option<nat>)
      requires Ok(View()) && levels != []
      modifies this
      ensures (View(), served) == Visit(old(View()), ready) && Ok(View())
    {
      VisitKeepsOk(View(), ready);
      var p := levels[0];
      levels := levels[1..];
      if queues[p] == [] {
        deficits := deficits[p := 0];
        needsQuantum := needsQuantum[p := true];
        return None;
      }
      var deficit := deficits[p];
      if needsQuantum[p] {
        deficit := Min(deficit + QUANTUMS[p], DEFICIT_CAP);
      }
      assert deficit == Refill(old(View()), p);
      var queue, found := TurnToReady(queues[p], ready);
      ghost var k := FirstReady(queues[p], ready);
      if found && deficit >= ready(queue[0]).value {
        var left := deficit - ready(queue[0]).value;
        deficits := deficits[p := left];
        queues := queues[p := Rotate(queue, 1)];
        levels := if left > 0 then [p] + levels else levels + [p];
        needsQuantum := needsQuantum[p := left <= 0];
        assert k.Some? && queues == old(queues)[p := Rotate(old(queues)[p], k.value + 1)];
        return Some(queue[0]);
      }
      assert !found ==> queues[p := queue] == queues && k == None;
      deficits := deficits[p := deficit];
      queues := queues[p := queue];
      levels := levels + [p];
      needsQuantum := needsQuantum[p := true];
      return None;
    }

    /** A visit, as the first of `n`. */
    method Turn(ready: Ready, ghost n: nat) returns (served: Option<nat>)
      requires Ok(View()) && levels != [] && n > 0
      modifies this
      ensures Ok(View())
      ensures Visits(old(View()), ready, n) == if served.Some? then (View(), served) else Visits(View(), ready, n - 1)
    {
      VisitsStep(View(), ready, n);
      served := VisitFront(ready);
    }

    /**
     `next_message`.  What it answers was queued and ready, and its size is taken off the deficit of
     its level.
     */
    method NextMessage(ready: Ready) returns (served: Option<nat>)
      requires Ok(View())
      modifies this
      ensures Ok(View()) && (View(), served) == NextCall(old(View()), ready)
      ensures served.Some? ==> exists p :: Charged(old(View()), View(), ready, p, served.value)
      ensures old(Separate(View())) ==> Separate(View())
    {
      if Separate(View()) { CallBalances(View(), ready, 0); }
      served := VisitLevels(ready);
      if served.Some? { CallCharges(old(View()), ready); }
    }

    /** The outer loop. */
    method VisitLevels(ready: Ready) returns (served: Option<nat>)
      requires Ok(View())
      modifies this
      ensures Ok(View()) && (View(), served) == NextCall(old(View()), ready)
    {
      var numActive := |levels|;
      ghost var goal := NextCall(View(), ready);
      for k := 0 to numActive
        invariant Ok(View())
        invariant Visits(View(), ready, numActive - k) == goal
      {
        if levels == [] {
          VisitsEnd(View(), ready, numActive - k);
          return None;
        }
        served := Turn(ready, numActive - k);
        if served.Some? { return; }
      }
      VisitsEnd(View(), ready, 0);
      return None;
    }
  }

  method AnswerHigh(m: PriorityScheduler, d0: int, ask0: bool, ready: Ready) returns (served: Option<nat>)
    requires ready(0) == Some(1353) && 0 <= d0 <= DEFICIT_CAP - 4096 && (if ask0 then d0 + 4096 else d0) > 1353
    requires m.View() == Busy(d0, 0, [0, 4], ask0, true)
    modifies m
    ensures served == Some(0)
    ensures m.View() == Busy((if ask0 then d0 + 4096 else d0) - 1353, 0, [0, 4], false, true)
  {
    CallHigh(d0, ask0, ready);
    served := m.NextMessage(ready);
  }

  method AnswerLow(m: PriorityScheduler, d0: int, ready: Ready) returns (served: Option<nat>)
    requires ready(0) == Some(1353) && ready(1) == Some(500) && 0 <= d0 < 1353
    requires m.View() == Busy(d0, 0, [0, 4], false, true)
    modifies m
    ensures served == Some(1)
  {
    CallLow(d0, ready);
    served := m.NextMessage(ready);
  }

  /** A deficit pays for as many fragments of 1353 bytes as fit into it; then it is the other level's turn. */
  method DeficitLasts(m: PriorityScheduler, d: int, k: nat, ready: Ready) returns (served: seq<Option<nat>>)
    requires ready(0) == Some(1353) && ready(1) == Some(500)
    requires k * 1353 < d < k * 1353 + 1353 && d <= DEFICIT_CAP - 4096
    requires m.View() == Busy(d, 0, [0, 4], false, true)
    modifies m
    ensures |served| == k + 1 && served[k] == Some(1) && forall i | 0 <= i < k :: served[i] == Some(0)
  {
    served := [];
    for n := 0 to k
      invariant |served| == n && forall i | 0 <= i < n :: served[i] == Some(0)
      invariant m.View() == Busy(d - n * 1353, 0, [0, 4], false, true)
    {
      var one := AnswerHigh(m, d - n * 1353, false, ready);
      served := served + [one];
    }
    var last := AnswerLow(m, d - k * 1353, ready);
    served := served + [last];
  }

  /** A quantum of 4096 pays for three fragments of 1353 bytes; then the lowest level is served. */
  method SharesByQuantum(m: PriorityScheduler, ready: Ready) returns (served: seq<Option<nat>>)
    requires ready(0) == Some(1353) && ready(1) == Some(500) && m.View() == Busy(0, 0, [0, 4], true, true)
    modifies m
    ensures served == [Some(0), Some(0), Some(0), Some(1)]
  {
    var first := AnswerHigh(m, 0, true, ready);
    var rest := DeficitLasts(m, 2743, 2, ready);
    served := [first] + rest;
  }

  lemma LevelsDrop(levels: seq<nat>, p: nat)
    ensures forall i | 0 <= i < |Drop(levels, p)| :: Drop(levels, p)[i] in levels
  {
    forall i | 0 <= i < |Drop(levels, p)| ensures Drop(levels, p)[i] in levels {
      assert Drop(levels, p)[i] in Drop(levels, p);
    }
  }
}
