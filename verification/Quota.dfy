/**
 The reassembly quota of tox-sequenced: one atomic byte counter shared by all
 sessions, changed only by compare-and-swap retry loops.

 The model is the interleaving of any number of sessions, each step one atomic
 access to the counter.  Each session carries the log of its finished calls; that a
 session releases no more than it holds is a property of such logs, which
 `ReceiveSession` proves of every session.
 */
module Quota {
  import opened Wrappers

  datatype Priority = Critical | High | Standard | Low | Bulk

  /** Admission threshold: a share of the capacity by priority, or all of it for a fair-share request. */
  function Threshold(max: nat, priority: Option<Priority>): (t: nat)
    ensures t <= max
  {
    match priority
    case None => max
    case Some(Bulk) => max * 70 / 100
    case Some(Low) => max * 80 / 100
    case Some(Standard) => max * 90 / 100
    case Some(High) => max * 95 / 100
    case Some(Critical) => max * 99 / 100
  }

  /** Higher priorities have higher thresholds; from 25 bytes on all of them differ. */
  lemma ThresholdsRise(max: nat)
    ensures Threshold(max, Some(Bulk)) <= Threshold(max, Some(Low)) <= Threshold(max, Some(Standard))
            <= Threshold(max, Some(High)) <= Threshold(max, Some(Critical)) <= Threshold(max, None) == max
    ensures max >= 25 ==>
              && Threshold(max, Some(Bulk)) < Threshold(max, Some(Low)) < Threshold(max, Some(Standard))
              && Threshold(max, Some(Standard)) < Threshold(max, Some(High)) < Threshold(max, Some(Critical)) < max
    ensures 100 * Threshold(max, Some(Bulk)) <= 70 * max && 100 * (Threshold(max, Some(Critical)) + 1) > 99 * max
  {
  }

  // ------------------------------------------------------- logs of calls

  /** A finished call: `fairShare` for `reserve_guaranteed`, `granted` for the answer. */
  datatype Call = Reserve(amount: nat, fairShare: bool, granted: bool) | Release(amount: nat)

  function SaturatingSub(a: nat, b: nat): nat { if a >= b then a - b else 0 }

  function After(held: nat, c: Call): nat {
    match c
    case Reserve(amount, _, granted) => if granted then held + amount else held
    case Release(amount) => SaturatingSub(held, amount)
  }

  /** What a session holds after its calls. */
  function Net(log: seq<Call>): nat {
    if log == [] then 0 else After(Net(log[..|log| - 1]), log[|log| - 1])
  }

  /** Every release gives back no more than was held. */
  ghost predicate Legal(log: seq<Call>) {
    log == [] ||
    var init, last := log[..|log| - 1], log[|log| - 1];
    Legal(init) && (last.Release? ==> last.amount <= Net(init))
  }

  lemma NetPush(log: seq<Call>, c: Call)
    ensures Net(log + [c]) == After(Net(log), c)
    ensures Legal(log + [c]) <==> Legal(log) && (c.Release? ==> c.amount <= Net(log))
  {
    assert (log + [c])[..|log|] == log;
  }

  // ------------------------------------------------------- the interleaving

  datatype Pc =
    | Idle
    | Reserving(amount: nat, priority: Option<Priority>, loaded: Option<nat>)
    | Releasing(amount: nat, loaded: Option<nat>)

  datatype Session = Session(log: seq<Call>, pc: Pc)

  datatype State = State(max: nat, used: nat, sessions: seq<Session>)

  datatype Action =
    | StartReserve(amount: nat, priority: Option<Priority>)
    | StartRelease(amount: nat)
    | Load
    | Refuse
    | Swap
    | SwapFails

  predicate Enabled(s: State, w: nat, a: Action) {
    && w < |s.sessions|
    && var me := s.sessions[w];
       match a
       case StartReserve(_, _) => me.pc.Idle?
       case StartRelease(_) => me.pc.Idle?
       case Load => !me.pc.Idle? && me.pc.loaded.None?
       case Refuse => && me.pc.Reserving? && me.pc.loaded.Some?
                      && me.pc.loaded.value + me.pc.amount > Threshold(s.max, me.pc.priority)
       case Swap => && !me.pc.Idle? && me.pc.loaded == Some(s.used)
                    && (me.pc.Reserving? ==> s.used + me.pc.amount <= Threshold(s.max, me.pc.priority))
       case SwapFails => !me.pc.Idle? && me.pc.loaded.Some? && me.pc.loaded != Some(s.used)
  }

  function Next(s: State, w: nat, a: Action): State
    requires Enabled(s, w, a)
  {
    var me := s.sessions[w];
    match a
    case StartReserve(amount, priority) => s.(sessions := s.sessions[w := me.(pc := Reserving(amount, priority, None))])
    case StartRelease(amount) => s.(sessions := s.sessions[w := me.(pc := Releasing(amount, None))])
    case Load => s.(sessions := s.sessions[w := me.(pc := me.pc.(loaded := Some(s.used)))])
    case Refuse =>
      s.(sessions := s.sessions[w := Session(me.log + [Reserve(me.pc.amount, me.pc.priority.None?, false)], Idle)])
    case SwapFails => s.(sessions := s.sessions[w := me.(pc := me.pc.(loaded := None))])
    case Swap =>
      if me.pc.Reserving? then
        s.(used := s.used + me.pc.amount,
           sessions := s.sessions[w := Session(me.log + [Reserve(me.pc.amount, me.pc.priority.None?, true)], Idle)])
      else
        s.(used := SaturatingSub(s.used, me.pc.amount),
           sessions := s.sessions[w := Session(me.log + [Release(me.pc.amount)], Idle)])
  }

  /** The calls of a session, with the release it has started. */
  function History(me: Session): seq<Call> {
    if me.pc.Releasing? then me.log + [Release(me.pc.amount)] else me.log
  }

  ghost predicate AllLegal(s: State) {
    forall w | 0 <= w < |s.sessions| :: Legal(History(s.sessions[w]))
  }

  function Held(sessions: seq<Session>): nat {
    if sessions == [] then 0 else Held(sessions[..|sessions| - 1]) + Net(sessions[|sessions| - 1].log)
  }

  lemma {:induction false} HeldUpdate(sessions: seq<Session>, w: nat, me: Session)
    requires w < |sessions|
    ensures Held(sessions) >= Net(sessions[w].log)
    ensures Held(sessions[w := me]) == Held(sessions) - Net(sessions[w].log) + Net(me.log)
  {
    var n := |sessions| - 1;
    if w < n {
      HeldUpdate(sessions[..n], w, me);
      assert sessions[w := me][..n] == sessions[..n][w := me];
    } else {
      assert sessions[w := me][..n] == sessions[..n];
    }
  }

  /** Conservation: the counter is the sum of what the sessions hold, within capacity. */
  ghost predicate Inv(s: State) { s.used == Held(s.sessions) <= s.max }

  predicate Init(s: State) {
    s.used == 0 && forall w | 0 <= w < |s.sessions| :: s.sessions[w] == Session([], Idle)
  }

  lemma {:induction false} InitHolds(s: State)
    requires Init(s)
    ensures Inv(s)
    decreases |s.sessions|
  {
    if s.sessions != [] { InitHolds(s.(sessions := s.sessions[..|s.sessions| - 1])); }
  }

  /** What a step does to the holdings of its session. */
  lemma StepNet(s: State, w: nat, a: Action)
    requires Enabled(s, w, a) && Legal(History(s.sessions[w]))
    ensures var me, net := s.sessions[w], Net(Next(s, w, a).sessions[w].log);
            if !a.Swap? then net == Net(me.log)
            else if me.pc.Reserving? then net == Net(me.log) + me.pc.amount
            else net + me.pc.amount == Net(me.log)
  {
    var me := s.sessions[w];
    match me.pc
    case Idle =>
    case Reserving(amount, priority, _) =>
      NetPush(me.log, Reserve(amount, priority.None?, true));
      NetPush(me.log, Reserve(amount, priority.None?, false));
    case Releasing(amount, _) => NetPush(me.log, Release(amount));
  }

  /** Every atomic step of sessions with legal histories keeps the counter exact, and no release saturates. */
  lemma StepKeeps(s: State, w: nat, a: Action)
    requires Inv(s) && Enabled(s, w, a) && AllLegal(s)
    ensures Inv(Next(s, w, a))
    ensures a.Swap? && s.sessions[w].pc.Releasing? ==> Next(s, w, a).used + s.sessions[w].pc.amount == s.used
  {
    assert Legal(History(s.sessions[w]));
    StepNet(s, w, a);
    HeldUpdate(s.sessions, w, Next(s, w, a).sessions[w]);
  }

  /** Histories only grow: they were legal before if they are after. */
  lemma LegalBefore(s: State, w: nat, a: Action)
    requires Enabled(s, w, a) && AllLegal(Next(s, w, a))
    ensures AllLegal(s)
  {
    var me, t := s.sessions[w], Next(s, w, a);
    assert Legal(History(t.sessions[w]));
    if a.StartRelease? { NetPush(me.log, Release(a.amount)); }
    if me.pc.Reserving? {
      NetPush(me.log, Reserve(me.pc.amount, me.pc.priority.None?, true));
      NetPush(me.log, Reserve(me.pc.amount, me.pc.priority.None?, false));
    }
    forall v | 0 <= v < |s.sessions| ensures Legal(History(s.sessions[v])) {
      if v != w { assert s.sessions[v] == t.sessions[v]; }
    }
  }

  /** A run: any interleaving of enabled steps of any sessions. */
  ghost predicate Run(trace: seq<State>, steps: seq<(nat, Action)>) {
    && |trace| == |steps| + 1 && Init(trace[0])
    && forall i | 0 <= i < |steps| ::
         Enabled(trace[i], steps[i].0, steps[i].1) && trace[i + 1] == Next(trace[i], steps[i].0, steps[i].1)
  }

  /** Wherever a run has come with legal histories, the counter is what the sessions hold, within capacity. */
  lemma {:induction false} RunKeeps(trace: seq<State>, steps: seq<(nat, Action)>, i: nat)
    requires Run(trace, steps) && i < |trace| && AllLegal(trace[i])
    ensures Inv(trace[i]) && trace[i].max == trace[0].max
  {
    if i == 0 {
      InitHolds(trace[0]);
    } else {
      LegalBefore(trace[i - 1], steps[i - 1].0, steps[i - 1].1);
      RunKeeps(trace, steps, i - 1);
      StepKeeps(trace[i - 1], steps[i - 1].0, steps[i - 1].1);
    }
  }
}
