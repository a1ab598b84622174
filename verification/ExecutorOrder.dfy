/**
  In which order the executor does things: which task is next, that every waiting task gets its turn,
  and what a round of the loop may do when.
 */
module ExecutorOrder {
  import opened Executor

  // ---- Which task is next ----

  lemma {:induction false} EffectsAppend(t: Tasks, es: seq<Effect>)
    ensures var t' := ApplyAll(t, es); t'.local == t.local && t.global <= t'.global && t.log <= t'.log
    decreases |es|
  {
    if es != [] { EffectsAppend(Apply(t, es[0]), es[1..]); }
  }

  /** Handling a header leaves the headers that wait where they are; new ones queue up behind them. */
  lemma HeaderAppends(t: Tasks, key: nat, script: seq<Turn>, pos: nat)
    requires key < |t.states| && pos <= |script| && HeaderSpec(t, key, script, pos).Some?
    ensures var t' := HeaderSpec(t, key, script, pos).value.0;
      t'.local == t.local && t.global <= t'.global && t.log <= t'.log
  {
    if key in t.owned {
      if t.states[key].Cancelled? {
        EffectsAppend(t.(owned := t.owned - {key}), script[pos].effects);
      } else {
        EffectsAppend(t.(states := t.states[key := Running], log := t.log + [Polled(key)]), script[pos].effects);
      }
    }
  }

  /** The headers a drain handles, in order. */
  ghost function Popped(t: Tasks, script: seq<Turn>, pos: nat): seq<nat>
    requires Ready(t) && pos <= |script|
    decreases |script| - pos, |t.local| + |t.global|
  {
    if PopNext(t).None? then []
    else
      var (key, t') := PopNext(t).value;
      PopKeeps(t);
      HeaderKeeps(t, script, pos);
      match HeaderSpec(t', key, script, pos)
      case None => [key]
      case Some((t2, pos2)) => [key] + Popped(t2, script, pos2)
  }

  function Backwards(s: seq<nat>): seq<nat> { if s == [] then [] else [s[|s| - 1]] + Backwards(s[..|s| - 1]) }

  /** The local queue from the back, then the shared queue from the front. */
  function Waiting(t: Tasks): seq<nat> { Backwards(t.local) + t.global }

  lemma PopIsFirst(t: Tasks)
    requires PopNext(t).Some?
    ensures var (key, t') := PopNext(t).value; Waiting(t) == [key] + Waiting(t')
  {
    if t.local == [] { assert t.global == [t.global[0]] + t.global[1..]; }
  }

  lemma PrefixCons(x: nat, a: seq<nat>, b: seq<nat>)
    requires a <= b
    ensures [x] + a <= [x] + b
  {
  }

  lemma PrefixBehind(a: seq<nat>, b: seq<nat>, c: seq<nat>, d: seq<nat>)
    requires b <= c && a + c <= d
    ensures a + b <= d
  {
    assert (a + c)[..|a + b|] == a + b;
  }

  /** A drain that is not cut short handles the local queue from the back, then the shared queue from the
      front, whatever the tasks do meanwhile; what they queue comes later. */
  lemma {:induction false} DrainOrder(t: Tasks, script: seq<Turn>, pos: nat, didWork: bool)
    requires Ready(t) && pos <= |script| && !DrainSpec(t, script, pos, didWork).ended
    ensures Waiting(t) <= Popped(t, script, pos)
    decreases |script| - pos, |t.local| + |t.global|
  {
    if PopNext(t).Some? {
      var (key, t') := PopNext(t).value;
      PopKeeps(t);
      HeaderKeeps(t, script, pos);
      var (t2, pos2) := HeaderSpec(t', key, script, pos).value;
      HeaderAppends(t', key, script, pos);
      DrainOrder(t2, script, pos2, true);
      PrefixBehind(Backwards(t'.local), t'.global, t2.global, Popped(t2, script, pos2));
      PopIsFirst(t);
      PrefixCons(key, Waiting(t'), Popped(t2, script, pos2));
    }
  }

  // ---- A task that waits for its turn gets it ----

  lemma {:induction false} PollsGrow(a: seq<Event>, b: seq<Event>, id: nat)
    requires a <= b
    ensures Polls(a, id) <= Polls(b, id)
    decreases |b|
  {
    if |a| < |b| { PollsGrow(a, b[..|b| - 1], id); } else { assert a == b; }
  }

  lemma {:induction false} DrainLogGrows(t: Tasks, script: seq<Turn>, pos: nat, didWork: bool)
    requires Ready(t) && pos <= |script|
    ensures t.log <= DrainSpec(t, script, pos, didWork).tasks.log
    decreases |script| - pos, |t.local| + |t.global|
  {
    if PopNext(t).Some? {
      var (key, t') := PopNext(t).value;
      PopKeeps(t);
      HeaderKeeps(t, script, pos);
      match HeaderSpec(t', key, script, pos)
      case None =>
      case Some((t2, pos2)) =>
        HeaderAppends(t', key, script, pos);
        DrainLogGrows(t2, script, pos2, true);
    }
  }

  lemma {:induction false} EffectsOnScheduled(t: Tasks, es: seq<Effect>, id: nat)
    requires id < |t.states| && (t.states[id].Scheduled? || t.states[id].Cancelled?)
    ensures var t' := ApplyAll(t, es);
      && id < |t'.states| && (t'.states[id].Scheduled? || t'.states[id].Cancelled?)
      && (t.states[id].Cancelled? ==> t'.states[id].Cancelled?) && (id in t.owned ==> id in t'.owned)
    decreases |es|
  {
    if es != [] { EffectsOnScheduled(Apply(t, es[0]), es[1..], id); }
  }

  /** Another task's header does not take a waiting task's turn away; at most the task is aborted. */
  lemma HeaderOnScheduled(t: Tasks, key: nat, script: seq<Turn>, pos: nat, id: nat)
    requires id < |t.states| && (t.states[id].Scheduled? || t.states[id].Cancelled?)
    requires key < |t.states| && key != id && pos <= |script|
    ensures match HeaderSpec(t, key, script, pos)
            case None => true
            case Some((t', pos')) =>
              && pos <= pos' <= |script| && id < |t'.states| && (t'.states[id].Scheduled? || t'.states[id].Cancelled?)
              && (t.states[id].Cancelled? ==> t'.states[id].Cancelled?) && (id in t.owned ==> id in t'.owned)
  {
    if key in t.owned && pos < |script| {
      var es := script[pos].effects;
      if t.states[key].Cancelled? {
        EffectsOnScheduled(t.(owned := t.owned - {key}), es, id);
      } else {
        EffectsOnScheduled(t.(states := t.states[key := Running], log := t.log + [Polled(key)]), es, id);
      }
    }
  }

  lemma {:induction false} CancelledStays(t: Tasks, script: seq<Turn>, pos: nat, didWork: bool, id: nat)
    requires Ready(t) && pos <= |script| && id < |t.states| && t.states[id].Cancelled?
    ensures var t' := DrainSpec(t, script, pos, didWork).tasks; id < |t'.states| && t'.states[id].Cancelled?
    decreases |script| - pos, |t.local| + |t.global|
  {
    if PopNext(t).Some? {
      var (key, t') := PopNext(t).value;
      PopKeeps(t);
      HeaderKeeps(t, script, pos);
      if key != id {
        HeaderOnScheduled(t', key, script, pos, id);
      } else if id in t'.owned && pos < |script| {
        EffectsOnCancelled(t'.(owned := t'.owned - {id}), script[pos].effects, id);
      }
      match HeaderSpec(t', key, script, pos)
      case None =>
      case Some((t2, pos2)) => CancelledStays(t2, script, pos2, true, id);
    }
  }

  /** The poll of a task is on record. */
  lemma PollIsLogged(t: Tasks, id: nat, turn: Turn)
    requires id < |t.states|
    ensures Polls(PollTask(t, id, turn).log, id) > Polls(t.log, id)
  {
    var started := t.(states := t.states[id := Running], log := t.log + [Polled(id)]);
    PollsSnoc(t.log, Polled(id), id);
    EffectsAppend(started, turn.effects);
    var t' := ApplyAll(started, turn.effects);
    PollsGrow(started.log, t'.log, id);
    PollsSnoc(t'.log, Ended(id), id);
  }

  /** Whatever the other tasks do: a task that is scheduled when a drain begins is polled in it, or has been
      aborted, unless the run is cut short. */
  lemma {:induction false} ScheduledIsPolled(t: Tasks, script: seq<Turn>, pos: nat, didWork: bool, id: nat)
    requires Ready(t) && pos <= |script| && id < |t.states| && t.states[id].Scheduled?
    requires !DrainSpec(t, script, pos, didWork).ended
    ensures var t' := DrainSpec(t, script, pos, didWork).tasks;
      Polls(t'.log, id) > Polls(t.log, id) || (id < |t'.states| && t'.states[id].Cancelled?)
    decreases |script| - pos, |t.local| + |t.global|
  {
    assert id in t.owned && PopNext(t).Some?;
    var (key, t') := PopNext(t).value;
    PopKeeps(t);
    HeaderKeeps(t, script, pos);
    var (t2, pos2) := HeaderSpec(t', key, script, pos).value;
    DrainLogGrows(t2, script, pos2, true);
    PollsGrow(t2.log, DrainSpec(t2, script, pos2, true).tasks.log, id);
    if key == id {
      PollIsLogged(t', id, script[pos]);
    } else {
      HeaderOnScheduled(t', key, script, pos, id);
      HeaderAppends(t', key, script, pos);
      PollsGrow(t'.log, t2.log, id);
      if t2.states[id].Cancelled? {
        CancelledStays(t2, script, pos2, true, id);
      } else {
        ScheduledIsPolled(t2, script, pos2, true, id);
      }
    }
  }

  // ---- The rounds of the loop ----

  /** Since the timers were last driven no task was polled. */
  predicate FreshRound(log: seq<Event>) {
    log != [] && (log[|log| - 1].Ticked? || (!log[|log| - 1].Polled? && FreshRound(log[..|log| - 1])))
  }

  /** The root is polled right after the timers, and never again once it was ready; the loop parks only in
      a round in which no task was polled. */
  ghost predicate Rounds(log: seq<Event>) {
    && (forall j :: 0 <= j < |log| && (log[j].RootPolled? || log[j].Parked?) ==> FreshRound(log[..j]))
    && (forall i, j :: 0 <= i < j < |log| && log[i] == RootPolled(true) ==> !log[j].RootPolled?)
  }

  ghost predicate InRounds(log: seq<Event>, rootDone: bool) {
    Rounds(log) && (rootDone <==> RootPolled(true) in log)
  }

  lemma RoundsSnoc(log: seq<Event>, e: Event, rootDone: bool)
    requires InRounds(log, rootDone)
    requires e.RootPolled? || e.Parked? ==> FreshRound(log)
    requires e.RootPolled? ==> !rootDone
    ensures InRounds(log + [e], rootDone || e == RootPolled(true))
  {
    var log' := log + [e];
    forall j | 0 <= j < |log'| && (log'[j].RootPolled? || log'[j].Parked?) ensures FreshRound(log'[..j]) {
      if j < |log| { assert log'[..j] == log[..j]; } else { assert log'[..j] == log; }
    }
  }

  /** What tasks do is no matter of the rounds. */
  lemma {:induction false} RoundsExtend(a: seq<Event>, b: seq<Event>, rootDone: bool)
    requires InRounds(a, rootDone) && a <= b && forall k :: |a| <= k < |b| ==> OfTask(b[k])
    ensures InRounds(b, rootDone)
    decreases |b|
  {
    if |a| < |b| {
      var init := b[..|b| - 1];
      RoundsExtend(a, init, rootDone);
      RoundsSnoc(init, b[|b| - 1], rootDone);
      assert b == init + [b[|b| - 1]];
    } else {
      assert a == b;
    }
  }

  ghost predicate OnlyEnds(a: seq<Event>, b: seq<Event>) { a <= b && forall k :: |a| <= k < |b| ==> b[k].Ended? }

  ghost predicate OnlyTasks(a: seq<Event>, b: seq<Event>) { a <= b && forall k :: |a| <= k < |b| ==> OfTask(b[k]) }

  lemma {:induction false} EffectsLog(t: Tasks, es: seq<Effect>)
    ensures OnlyEnds(t.log, ApplyAll(t, es).log)
    decreases |es|
  {
    if es != [] { EffectsLog(Apply(t, es[0]), es[1..]); }
  }

  lemma HeaderLog(t: Tasks, key: nat, script: seq<Turn>, pos: nat)
    requires key < |t.states| && pos <= |script| && HeaderSpec(t, key, script, pos).Some?
    ensures OnlyTasks(t.log, HeaderSpec(t, key, script, pos).value.0.log)
  {
    if key in t.owned {
      if t.states[key].Cancelled? {
        EffectsLog(t.(owned := t.owned - {key}), script[pos].effects);
      } else {
        EffectsLog(t.(states := t.states[key := Running], log := t.log + [Polled(key)]), script[pos].effects);
      }
    }
  }

  lemma {:induction false} DrainLog(t: Tasks, script: seq<Turn>, pos: nat, didWork: bool)
    requires Ready(t) && pos <= |script|
    ensures OnlyTasks(t.log, DrainSpec(t, script, pos, didWork).tasks.log)
    decreases |script| - pos, |t.local| + |t.global|
  {
    if PopNext(t).Some? {
      var (key, t') := PopNext(t).value;
      PopKeeps(t);
      HeaderKeeps(t, script, pos);
      match HeaderSpec(t', key, script, pos)
      case None =>
      case Some((t2, pos2)) =>
        HeaderLog(t', key, script, pos);
        DrainLog(t2, script, pos2, true);
    }
  }

  /** Once a header was handled, the drain says so. */
  lemma {:induction false} DidWorkStays(t: Tasks, script: seq<Turn>, pos: nat)
    requires Ready(t) && pos <= |script|
    ensures DrainSpec(t, script, pos, true).didWork
    decreases |script| - pos, |t.local| + |t.global|
  {
    if PopNext(t).Some? {
      var (key, t') := PopNext(t).value;
      PopKeeps(t);
      HeaderKeeps(t, script, pos);
      match HeaderSpec(t', key, script, pos)
      case None =>
      case Some((t2, pos2)) => DidWorkStays(t2, script, pos2);
    }
  }

  /** A drain without work changes nothing. */
  lemma NoWorkNoChange(t: Tasks, script: seq<Turn>, pos: nat)
    requires Ready(t) && pos <= |script| && !DrainSpec(t, script, pos, false).didWork
    ensures DrainSpec(t, script, pos, false).tasks == t
  {
    if PopNext(t).Some? {
      var (key, t') := PopNext(t).value;
      PopKeeps(t);
      HeaderKeeps(t, script, pos);
      match HeaderSpec(t', key, script, pos)
      case None =>
      case Some((t2, pos2)) => DidWorkStays(t2, script, pos2);
    }
  }

  lemma {:induction false} FreshStays(a: seq<Event>, b: seq<Event>)
    requires FreshRound(a) && OnlyEnds(a, b)
    ensures FreshRound(b)
    decreases |b|
  {
    if |a| < |b| { FreshStays(a, b[..|b| - 1]); } else { assert a == b; }
  }

  /** A turn of the loop, in a round where it may be taken. */
  lemma LoopTurnLog(t: Tasks, e: Event, turn: Turn, rootDone: bool)
    requires InRounds(t.log, rootDone) && !OfTask(e)
    requires e.RootPolled? || e.Parked? ==> FreshRound(t.log)
    requires e.RootPolled? ==> !rootDone
    ensures InRounds(LoopTurn(t, e, turn).log, rootDone || e == RootPolled(true))
    ensures FreshRound(LoopTurn(t, e, turn).log)
  {
    var log := t.log + [e];
    assert log[..|log| - 1] == t.log;
    RoundsSnoc(t.log, e, rootDone);
    EffectsLog(t.(log := log), turn.effects);
    RoundsExtend(log, LoopTurn(t, e, turn).log, rootDone || e == RootPolled(true));
    assert FreshRound(log);
    FreshStays(log, LoopTurn(t, e, turn).log);
  }

  /** In every run: the timers are driven first in each round, then the root is polled unless it was ready
      before, and the loop parks only if no task was polled in the round. The run knows whether the root
      was ready. */
  lemma {:induction false} RunKeepsRounds(t: Tasks, script: seq<Turn>, pos: nat, rootDone: bool)
    requires Ready(t) && pos <= |script| && InRounds(t.log, rootDone)
    ensures var (t', e, done) := RunSpec(t, script, pos, rootDone); InRounds(t'.log, done)
    decreases |script| - pos, 0
  {
    if pos < |script| {
      LoopTurnKeeps(t, Ticked, script[pos]);
      LoopTurnLog(t, Ticked, script[pos], rootDone);
      AtRootKeepsRounds(LoopTurn(t, Ticked, script[pos]), script, pos + 1, rootDone);
    }
  }

  lemma {:induction false} AtRootKeepsRounds(t: Tasks, script: seq<Turn>, pos: nat, rootDone: bool)
    requires Ready(t) && 0 < pos <= |script| && InRounds(t.log, rootDone) && FreshRound(t.log)
    ensures var (t', e, done) := AtRoot(t, script, pos, rootDone); InRounds(t'.log, done)
    decreases |script| - pos, 2
  {
    if rootDone {
      AfterRootKeepsRounds(t, script, pos, true);
    } else if pos < |script| {
      var e := RootPolled(script[pos].ready);
      LoopTurnKeeps(t, e, script[pos]);
      LoopTurnLog(t, e, script[pos], false);
      AfterRootKeepsRounds(LoopTurn(t, e, script[pos]), script, pos + 1, script[pos].ready);
    }
  }

  lemma {:induction false} AfterRootKeepsRounds(t: Tasks, script: seq<Turn>, pos: nat, rootDone: bool)
    requires Ready(t) && 0 < pos <= |script| && InRounds(t.log, rootDone) && FreshRound(t.log)
    ensures var (t', e, done) := AfterRoot(t, script, pos, rootDone); InRounds(t'.log, done)
    decreases |script| - pos, 1
  {
    if !(rootDone && t.owned == {}) {
      var d := DrainSpec(t, script, pos, false);
      DrainLog(t, script, pos, false);
      RoundsExtend(t.log, d.tasks.log, rootDone);
      if !d.ended && !(rootDone && d.tasks.owned == {}) {
        if d.didWork {
          RunKeepsRounds(d.tasks, script, d.pos, rootDone);
        } else if d.pos < |script| {
          NoWorkNoChange(t, script, pos);
          ParkedKeepsRounds(d.tasks, script, d.pos, rootDone);
        }
      }
    }
  }

  lemma {:induction false} ParkedKeepsRounds(t: Tasks, script: seq<Turn>, pos: nat, rootDone: bool)
    requires Ready(t) && pos < |script| && InRounds(t.log, rootDone) && FreshRound(t.log)
    ensures Ready(LoopTurn(t, Parked, script[pos]))
    ensures var (t', e, done) := RunSpec(LoopTurn(t, Parked, script[pos]), script, pos + 1, rootDone);
      InRounds(t'.log, done)
    decreases |script| - pos, 0
  {
    LoopTurnKeeps(t, Parked, script[pos]);
    LoopTurnLog(t, Parked, script[pos], rootDone);
    RunKeepsRounds(LoopTurn(t, Parked, script[pos]), script, pos + 1, rootDone);
  }
}
