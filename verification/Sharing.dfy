/**
 Many sessions on one quota: the buffers of all sessions together are what the quota
 counts.  The sessions are the objects of `ReceiveSession`, each with the log of its calls;
 the quota is any interleaving of those calls, step by step.
 */
module Sharing {
  import opened Wrappers
  import Quota
  import ReceiveSession

  ghost function Buffered(sessions: seq<ReceiveSession.Session>): nat
    reads sessions
  {
    if sessions == [] then 0
    else Buffered(sessions[..|sessions| - 1]) + sessions[|sessions| - 1].incomingBufferSize
  }

  /** The quota's record of each session is the session's own log, and no release is under way. */
  ghost predicate Recorded(s: Quota.State, sessions: seq<ReceiveSession.Session>)
    reads sessions
  {
    && |s.sessions| == |sessions|
    && forall w | 0 <= w < |sessions| :: s.sessions[w].log == sessions[w].log && !s.sessions[w].pc.Releasing?
  }

  lemma {:induction false} BufferedIsHeld(sessions: seq<ReceiveSession.Session>, records: seq<Quota.Session>)
    requires |records| == |sessions|
    requires forall w | 0 <= w < |sessions| :: sessions[w].Valid() && records[w].log == sessions[w].log
    ensures Buffered(sessions) == Quota.Held(records)
  {
    if sessions != [] { BufferedIsHeld(sessions[..|sessions| - 1], records[..|records| - 1]); }
  }

  /**
   Conservation: whatever packets, cleanups and drops brought the sessions to where they are,
   and however their calls were interleaved, the buffer sizes add up to what the quota counts,
   within its capacity.
   */
  lemma Conservation(trace: seq<Quota.State>, steps: seq<(nat, Quota.Action)>, i: nat,
                     sessions: seq<ReceiveSession.Session>)
    requires Quota.Run(trace, steps) && i < |trace| && Recorded(trace[i], sessions)
    requires forall w | 0 <= w < |sessions| :: sessions[w].Valid()
    ensures trace[i].used == Buffered(sessions) <= trace[0].max
  {
    var s := trace[i];
    forall w | 0 <= w < |s.sessions| ensures Quota.Legal(Quota.History(s.sessions[w])) {
      assert sessions[w].Valid();
    }
    Quota.RunKeeps(trace, steps, i);
    BufferedIsHeld(sessions, s.sessions);
  }

  /** A call by one session alone: what its sequence of atomic steps leaves. */
  function Finished(s: Quota.State, w: nat, call: Quota.Call): Quota.State
    requires w < |s.sessions|
  {
    s.(used := Quota.After(s.used, call),
       sessions := s.sessions[w := Quota.Session(s.sessions[w].log + [call], Quota.Idle)])
  }

  /** Whether the quota can give this answer. */
  predicate Possible(s: Quota.State, call: Quota.Call, priority: Option<Quota.Priority>) {
    call.Reserve? ==>
      && call.fairShare == priority.None?
      && (call.granted <==> s.used + call.amount <= Quota.Threshold(s.max, priority))
  }

  /** The steps of one undisturbed call. */
  function StepsOf(w: nat, call: Quota.Call, priority: Option<Quota.Priority>): seq<(nat, Quota.Action)> {
    match call
    case Reserve(amount, _, granted) =>
      [(w, Quota.StartReserve(amount, priority)), (w, Quota.Load), (w, if granted then Quota.Swap else Quota.Refuse)]
    case Release(amount) => [(w, Quota.StartRelease(amount)), (w, Quota.Load), (w, Quota.Swap)]
  }

  /** The three steps of a call of an idle session are enabled one after the other, and finish it. */
  lemma CallSteps(s: Quota.State, w: nat, call: Quota.Call, priority: Option<Quota.Priority>)
    returns (a: Quota.State, b: Quota.State)
    requires w < |s.sessions| && s.sessions[w].pc.Idle? && Possible(s, call, priority)
    ensures var steps := StepsOf(w, call, priority);
            && |steps| == 3 && Quota.Enabled(s, w, steps[0].1) && a == Quota.Next(s, w, steps[0].1)
            && Quota.Enabled(a, w, steps[1].1) && b == Quota.Next(a, w, steps[1].1)
            && Quota.Enabled(b, w, steps[2].1) && Finished(s, w, call) == Quota.Next(b, w, steps[2].1)
            && steps == [(w, steps[0].1), (w, steps[1].1), (w, steps[2].1)]
  {
    var steps := StepsOf(w, call, priority);
    a := Quota.Next(s, w, steps[0].1);
    b := Quota.Next(a, w, steps[1].1);
    assert Quota.Next(b, w, steps[2].1).sessions == Finished(s, w, call).sessions;
  }

  lemma StepExtendsRun(trace: seq<Quota.State>, steps: seq<(nat, Quota.Action)>, w: nat, a: Quota.Action)
    requires Quota.Run(trace, steps) && Quota.Enabled(trace[|trace| - 1], w, a)
    ensures Quota.Run(trace + [Quota.Next(trace[|trace| - 1], w, a)], steps + [(w, a)])
  {
  }

  /** Every run can be continued by any call of an idle session that the quota answers so. */
  lemma CallExtendsRun(trace: seq<Quota.State>, steps: seq<(nat, Quota.Action)>, w: nat, call: Quota.Call,
                       priority: Option<Quota.Priority>) returns (trace': seq<Quota.State>)
    requires Quota.Run(trace, steps)
    requires var s := trace[|trace| - 1]; w < |s.sessions| && s.sessions[w].pc.Idle? && Possible(s, call, priority)
    ensures Quota.Run(trace', steps + StepsOf(w, call, priority))
    ensures trace'[|trace'| - 1] == Finished(trace[|trace| - 1], w, call)
  {
    var s, next := trace[|trace| - 1], StepsOf(w, call, priority);
    var a, b := CallSteps(s, w, call, priority);
    StepExtendsRun(trace, steps, w, next[0].1);
    StepExtendsRun(trace + [a], steps + [next[0]], w, next[1].1);
    StepExtendsRun(trace + [a] + [b], steps + [next[0]] + [next[1]], w, next[2].1);
    trace' := trace + [a] + [b] + [Finished(s, w, call)];
    assert steps + [next[0]] + [next[1]] + [next[2]] == steps + next;
  }
}
