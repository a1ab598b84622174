/**
  The single-threaded executor: its run loop over a task table and two queues.

  What user code does is a script: every poll, timer tick and park of the loop takes the next turn,
  which may spawn tasks, fire wakers, abort tasks and push any headers, and says whether the polled
  future is ready. Properties hold for every script, so for every run; a script that ends before
  `block_on` returns is a run that is still going on.
 */
module Executor {
  import opened Prelude

  datatype TaskState = Idle | Scheduled | Running | Completed | Cancelled

  predicate Finished(t: TaskState) { t.Completed? || t.Cancelled? }

  datatype Effect = SpawnTask | Wake(id: nat) | Abort(id: nat) | PushHeader(id: nat)

  datatype Turn = Turn(effects: seq<Effect>, ready: bool)

  /** What happened, in order: polls and ends of tasks, and what the loop does in a round. */
  datatype Event = Polled(id: nat) | Ended(id: nat) | Ticked | RootPolled(ready: bool) | Parked

  predicate OfTask(e: Event) { e.Polled? || e.Ended? }

  /** Task ids are numbered by spawning; `states` holds one state for each. */
  datatype Tasks = Tasks(states: seq<TaskState>, owned: set<nat>, global: seq<nat>, local: seq<nat>, log: seq<Event>)

  const EMPTY := Tasks([], {}, [], [], [])

  // ---- What user code can do ----

  function Apply(t: Tasks, e: Effect): Tasks {
    match e
    case SpawnTask =>
      var id := |t.states|;
      t.(states := t.states + [Scheduled], owned := t.owned + {id}, global := t.global + [id])
    case Wake(id) =>
      if id < |t.states| && t.states[id].Idle? then
        t.(states := t.states[id := Scheduled], global := t.global + [id])
      else t
    case Abort(id) =>
      if id < |t.states| && (t.states[id].Idle? || t.states[id].Scheduled?) then
        t.(states := t.states[id := Cancelled], log := t.log + [Ended(id)])
      else t
    case PushHeader(id) => if id < |t.states| then t.(global := t.global + [id]) else t
  }

  function ApplyAll(t: Tasks, es: seq<Effect>): Tasks
    decreases |es|
  {
    if es == [] then t else ApplyAll(Apply(t, es[0]), es[1..])
  }

  // ---- One header from a queue ----

  /** `poll_task` on an owned task: running, the user's effects, then completed or idle. */
  function PollTask(t: Tasks, id: nat, turn: Turn): (r: Tasks)
    requires id < |t.states|
    ensures |t.states| <= |r.states|
  {
    var started := t.(states := t.states[id := Running], log := t.log + [Polled(id)]);
    var t' := ApplyAll(started, turn.effects);
    GrowsAll(started, turn.effects);
    if turn.ready then t'.(states := t'.states[id := Completed], owned := t'.owned - {id}, log := t'.log + [Ended(id)])
    else t'.(states := t'.states[id := Idle])
  }

  // ---- Invariants ----

  /** A task leaves the table only when it is finished, and a finished task's end is on record; a
      recorded end is final. */
  ghost predicate Sound(t: Tasks) {
    && (forall id :: id in t.owned ==> id < |t.states| && !t.states[id].Completed?)
    && (forall id :: 0 <= id < |t.states| && id !in t.owned ==> Finished(t.states[id]))
    && (forall k :: 0 <= k < |t.global| ==> t.global[k] < |t.states|)
    && (forall k :: 0 <= k < |t.local| ==> t.local[k] < |t.states|)
    && (forall k :: 0 <= k < |t.log| && OfTask(t.log[k]) ==> t.log[k].id < |t.states|)
    && (forall k :: 0 <= k < |t.log| && t.log[k].Ended? ==> Finished(t.states[t.log[k].id]))
  }

  /** No task is polled after it ended. */
  ghost predicate NeverPolledAfterEnd(log: seq<Event>) {
    forall i, j :: 0 <= i < j < |log| && log[i].Ended? && log[j].Polled? ==> log[i].id != log[j].id
  }

  ghost predicate NoneRunning(t: Tasks) {
    forall id :: 0 <= id < |t.states| ==> !t.states[id].Running?
  }

  lemma {:induction false} GrowsAll(t: Tasks, es: seq<Effect>)
    ensures |t.states| <= |ApplyAll(t, es).states|
    decreases |es|
  {
    if es != [] { GrowsAll(Apply(t, es[0]), es[1..]); }
  }

  ghost predicate Good(t: Tasks) { Sound(t) && NeverPolledAfterEnd(t.log) }

  /** User code keeps the invariants, and touches no running task. */
  lemma ApplyKeeps(t: Tasks, e: Effect, running: nat)
    requires Good(t) && running < |t.states| && t.states[running].Running? && running in t.owned
    ensures var t' := Apply(t, e);
      Good(t') && |t.states| <= |t'.states| && t'.states[running].Running? && running in t'.owned
  {
  }

  lemma ApplyKeepsQuiet(t: Tasks, e: Effect)
    requires Good(t) && NoneRunning(t)
    ensures Good(Apply(t, e)) && NoneRunning(Apply(t, e))
  {
  }

  lemma {:induction false} ApplyAllKeeps(t: Tasks, es: seq<Effect>, running: nat)
    requires Good(t) && running < |t.states| && t.states[running].Running? && running in t.owned
    ensures var t' := ApplyAll(t, es);
      Good(t') && |t.states| <= |t'.states| && t'.states[running].Running? && running in t'.owned
    decreases |es|
  {
    if es != [] {
      ApplyKeeps(t, es[0], running);
      ApplyAllKeeps(Apply(t, es[0]), es[1..], running);
    }
  }

  lemma {:induction false} ApplyAllKeepsQuiet(t: Tasks, es: seq<Effect>)
    requires Good(t) && NoneRunning(t)
    ensures Good(ApplyAll(t, es)) && NoneRunning(ApplyAll(t, es))
    decreases |es|
  {
    if es != [] {
      ApplyKeepsQuiet(t, es[0]);
      ApplyAllKeepsQuiet(Apply(t, es[0]), es[1..]);
    }
  }

  ghost predicate OthersQuiet(t: Tasks, running: nat) {
    forall id :: 0 <= id < |t.states| && id != running ==> !t.states[id].Running?
  }

  /** Only one task runs: the others are not running while a poll's effects are applied. */
  lemma {:induction false} OnlyOneRuns(t: Tasks, es: seq<Effect>, running: nat)
    requires OthersQuiet(t, running)
    ensures OthersQuiet(ApplyAll(t, es), running)
    decreases |es|
  {
    if es != [] {
      assert OthersQuiet(Apply(t, es[0]), running);
      OnlyOneRuns(Apply(t, es[0]), es[1..], running);
    }
  }

  /** Polling an owned, unfinished task keeps everything sound. */
  lemma PollKeeps(t: Tasks, id: nat, turn: Turn)
    requires Good(t) && NoneRunning(t) && id in t.owned && !Finished(t.states[id])
    ensures Good(PollTask(t, id, turn)) && NoneRunning(PollTask(t, id, turn))
  {
    var started := t.(states := t.states[id := Running], log := t.log + [Polled(id)]);
    StartPoll(t, id);
    ApplyAllKeeps(started, turn.effects, id);
    OnlyOneRuns(started, turn.effects, id);
    FinishPoll(ApplyAll(started, turn.effects), id, turn.ready);
  }

  lemma StartPoll(t: Tasks, id: nat)
    requires Good(t) && NoneRunning(t) && id in t.owned && !Finished(t.states[id])
    ensures Good(t.(states := t.states[id := Running], log := t.log + [Polled(id)]))
  {
  }

  lemma FinishPoll(t: Tasks, id: nat, ready: bool)
    requires Good(t) && id < |t.states| && t.states[id].Running? && id in t.owned
    requires OthersQuiet(t, id)
    ensures var t' :=
              if ready then t.(states := t.states[id := Completed], owned := t.owned - {id}, log := t.log + [Ended(id)])
              else t.(states := t.states[id := Idle]);
            Good(t') && NoneRunning(t')
  {
  }

  // ---- What a run does ----

  /** Local queue first, most recent first; then the shared queue, oldest first. */
  function PopNext(t: Tasks): Option<(nat, Tasks)> {
    if t.local != [] then Some((t.local[|t.local| - 1], t.(local := t.local[..|t.local| - 1])))
    else if t.global != [] then Some((t.global[0], t.(global := t.global[1..])))
    else None
  }

  /** Every task that waits to be polled has a header in a queue, except possibly `popped`. */
  ghost predicate QueuedBut(t: Tasks, popped: Option<nat>) {
    forall id :: 0 <= id < |t.states| && t.states[id].Scheduled? && popped != Some(id) ==>
      id in t.global || id in t.local
  }

  /** Between two headers: sound, nothing running, no scheduled task forgotten. */
  ghost predicate Ready(t: Tasks) { Good(t) && NoneRunning(t) && QueuedBut(t, None) }

  lemma PopKeeps(t: Tasks)
    requires Ready(t) && PopNext(t).Some?
    ensures var (key, t') := PopNext(t).value;
      && key < |t'.states| && t'.states == t.states && t'.owned == t.owned && t'.log == t.log
      && Good(t') && NoneRunning(t') && QueuedBut(t', Some(key))
      && |t'.local| + |t'.global| < |t.local| + |t.global|
  {
    var (key, t') := PopNext(t).value;
    if t.local != [] {
      assert t.local == t'.local + [key];
    } else {
      assert t.global == [key] + t'.global;
    }
  }

  lemma ApplyKeepsQueued(t: Tasks, e: Effect, popped: Option<nat>)
    requires QueuedBut(t, popped) && (popped.Some? ==> popped.value < |t.states| && !t.states[popped.value].Idle?)
    ensures QueuedBut(Apply(t, e), popped)
    ensures popped.Some? && t.states[popped.value].Running? ==>
              popped.value < |Apply(t, e).states| && Apply(t, e).states[popped.value].Running?
  {
    var t' := Apply(t, e);
    forall id | 0 <= id < |t'.states| && t'.states[id].Scheduled? && popped != Some(id)
      ensures id in t'.global || id in t'.local
    {
      if id == |t.states| || (e.Wake? && e.id == id && t.states[id].Idle?) {
        assert t'.global == t.global + [id];
      } else {
        assert t.states[id].Scheduled?;
        assert t.global <= t'.global;
        if id in t.global {
          var k :| 0 <= k < |t.global| && t.global[k] == id;
          assert t'.global[k] == id;
        }
      }
    }
  }

  lemma {:induction false} ApplyAllKeepsQueued(t: Tasks, es: seq<Effect>, popped: Option<nat>)
    requires QueuedBut(t, popped) && (popped.Some? ==> popped.value < |t.states| && t.states[popped.value].Running?)
    ensures QueuedBut(ApplyAll(t, es), popped)
    decreases |es|
  {
    if es != [] {
      ApplyKeepsQueued(t, es[0], popped);
      ApplyAllKeepsQueued(Apply(t, es[0]), es[1..], popped);
    }
  }

  lemma PollKeepsQueued(t: Tasks, id: nat, turn: Turn)
    requires id < |t.states| && QueuedBut(t, Some(id))
    ensures QueuedBut(PollTask(t, id, turn), None)
  {
    var started := t.(states := t.states[id := Running], log := t.log + [Polled(id)]);
    GrowsAll(started, turn.effects);
    assert QueuedBut(started, Some(id));
    ApplyAllKeepsQueued(started, turn.effects, Some(id));
  }

  lemma OutsideKeeps(t: Tasks, turn: Turn)
    requires Ready(t)
    ensures Ready(ApplyAll(t, turn.effects))
  {
    ApplyAllKeepsQuiet(t, turn.effects);
    ApplyAllKeepsQueued(t, turn.effects, None);
  }

  /** A turn that the loop itself takes: timers, the root future or the reactor. */
  function LoopTurn(t: Tasks, e: Event, turn: Turn): Tasks { ApplyAll(t.(log := t.log + [e]), turn.effects) }

  lemma LoopTurnKeeps(t: Tasks, e: Event, turn: Turn)
    requires Ready(t) && !OfTask(e)
    ensures Ready(LoopTurn(t, e, turn))
  {
    assert Ready(t.(log := t.log + [e]));
    OutsideKeeps(t.(log := t.log + [e]), turn);
  }

  /** `cancel` on an owned task: it leaves the table, its future is dropped and its waiter woken. */
  function CancelTask(t: Tasks, id: nat, turn: Turn): Tasks {
    ApplyAll(t.(owned := t.owned - {id}), turn.effects)
  }

  /** One popped header: a cancelled task is cancelled for good, a task that is gone is skipped, any
      other is polled. None if the script has no turn left for it. */
  function HeaderSpec(t: Tasks, key: nat, script: seq<Turn>, pos: nat): Option<(Tasks, nat)>
    requires key < |t.states| && pos <= |script|
  {
    if key !in t.owned then Some((t, pos))
    else if pos == |script| then None
    else if t.states[key].Cancelled? then Some((CancelTask(t, key, script[pos]), pos + 1))
    else Some((PollTask(t, key, script[pos]), pos + 1))
  }

  lemma HeaderKeeps(t: Tasks, script: seq<Turn>, pos: nat)
    requires Ready(t) && PopNext(t).Some? && pos <= |script|
    ensures var (key, t') := PopNext(t).value;
      && key < |t'.states|
      && (HeaderSpec(t', key, script, pos).Some? ==> Ready(HeaderSpec(t', key, script, pos).value.0))
  {
    PopKeeps(t);
    var (key, t') := PopNext(t).value;
    if key in t'.owned && pos < |script| {
      if t'.states[key].Cancelled? {
        var t2 := t'.(owned := t'.owned - {key});
        assert Ready(t2);
        OutsideKeeps(t2, script[pos]);
      } else {
        PollKeeps(t', key, script[pos]);
        PollKeepsQueued(t', key, script[pos]);
      }
    }
  }

  datatype Drained = Drained(tasks: Tasks, pos: nat, ended: bool, didWork: bool)

  /** Step 4 of the loop, from turn `pos` on: headers are popped until both queues are empty. */
  ghost function DrainSpec(t: Tasks, script: seq<Turn>, pos: nat, didWork: bool): (r: Drained)
    requires Ready(t) && pos <= |script|
    ensures pos <= r.pos <= |script|
    ensures !r.ended ==> Ready(r.tasks) && r.tasks.local == [] && r.tasks.global == []
    ensures Good(r.tasks)
    decreases |script| - pos, |t.local| + |t.global|
  {
    if PopNext(t).None? then Drained(t, pos, false, didWork)
    else
      var (key, t') := PopNext(t).value;
      PopKeeps(t);
      HeaderKeeps(t, script, pos);
      match HeaderSpec(t', key, script, pos)
      case None => Drained(t', pos, true, true)
      case Some((t2, pos2)) => DrainSpec(t2, script, pos2, true)
  }

  datatype Ending = StillGoing | Returned

  /** Rounds of `block_on` from turn `pos` on: timers, the root future, the exit test, the queues, the
      exit test again, and the reactor when there was nothing to do. */
  ghost function RunSpec(t: Tasks, script: seq<Turn>, pos: nat, rootDone: bool): (Tasks, Ending, bool)
    requires Ready(t) && pos <= |script|
    decreases |script| - pos, 0
  {
    if pos == |script| then (t, StillGoing, rootDone)
    else
      LoopTurnKeeps(t, Ticked, script[pos]);
      AtRoot(LoopTurn(t, Ticked, script[pos]), script, pos + 1, rootDone)
  }

  ghost function AtRoot(t: Tasks, script: seq<Turn>, pos: nat, rootDone: bool): (Tasks, Ending, bool)
    requires Ready(t) && 0 < pos <= |script|
    decreases |script| - pos, 2
  {
    if rootDone then AfterRoot(t, script, pos, true)
    else if pos == |script| then (t, StillGoing, false)
    else
      LoopTurnKeeps(t, RootPolled(script[pos].ready), script[pos]);
      AfterRoot(LoopTurn(t, RootPolled(script[pos].ready), script[pos]), script, pos + 1, script[pos].ready)
  }

  ghost function AfterRoot(t: Tasks, script: seq<Turn>, pos: nat, rootDone: bool): (Tasks, Ending, bool)
    requires Ready(t) && 0 < pos <= |script|
    decreases |script| - pos, 1
  {
    if rootDone && t.owned == {} then (t, Returned, true)
    else
      var d := DrainSpec(t, script, pos, false);
      if d.ended then (d.tasks, StillGoing, rootDone)
      else if rootDone && d.tasks.owned == {} then (d.tasks, Returned, true)
      else if d.didWork then RunSpec(d.tasks, script, d.pos, rootDone)
      else if d.pos == |script| then (d.tasks, StillGoing, rootDone)
      else
        LoopTurnKeeps(d.tasks, Parked, script[d.pos]);
        RunSpec(LoopTurn(d.tasks, Parked, script[d.pos]), script, d.pos + 1, rootDone)
  }

  /** In every run, returned or not, no task is polled after it ended; and a run returns only when the
      root has its output and every task ever spawned has finished. */
  lemma {:induction false} RunIsSafe(t: Tasks, script: seq<Turn>, pos: nat, rootDone: bool)
    requires Ready(t) && pos <= |script|
    ensures var (t', e, done) := RunSpec(t, script, pos, rootDone); SafeEnd(t', e, done)
    decreases |script| - pos, 0
  {
    if pos < |script| {
      LoopTurnKeeps(t, Ticked, script[pos]);
      AtRootIsSafe(LoopTurn(t, Ticked, script[pos]), script, pos + 1, rootDone);
    }
  }

  lemma {:induction false} AtRootIsSafe(t: Tasks, script: seq<Turn>, pos: nat, rootDone: bool)
    requires Ready(t) && 0 < pos <= |script|
    ensures var (t', e, done) := AtRoot(t, script, pos, rootDone); SafeEnd(t', e, done)
    decreases |script| - pos, 2
  {
    if rootDone {
      AfterRootIsSafe(t, script, pos, true);
    } else if pos < |script| {
      LoopTurnKeeps(t, RootPolled(script[pos].ready), script[pos]);
      AfterRootIsSafe(LoopTurn(t, RootPolled(script[pos].ready), script[pos]), script, pos + 1, script[pos].ready);
    }
  }

  ghost predicate SafeEnd(t: Tasks, e: Ending, rootDone: bool) {
    && NeverPolledAfterEnd(t.log)
    && (e.Returned? ==> rootDone && forall id :: 0 <= id < |t.states| ==> Finished(t.states[id]))
  }

  lemma {:induction false} AfterRootIsSafe(t: Tasks, script: seq<Turn>, pos: nat, rootDone: bool)
    requires Ready(t) && 0 < pos <= |script|
    ensures var (t', e, done) := AfterRoot(t, script, pos, rootDone); SafeEnd(t', e, done)
    decreases |script| - pos, 1
  {
    if !(rootDone && t.owned == {}) {
      var d := DrainSpec(t, script, pos, false);
      if !d.ended && !(rootDone && d.tasks.owned == {}) {
        if d.didWork {
          RunIsSafe(d.tasks, script, d.pos, rootDone);
        } else if d.pos < |script| {
          LoopTurnKeeps(d.tasks, Parked, script[d.pos]);
          RunIsSafe(LoopTurn(d.tasks, Parked, script[d.pos]), script, d.pos + 1, rootDone);
        }
      }
    }
  }

  // ---- When a run returns ----

  lemma {:induction false} EffectsKeepOwned(t: Tasks, es: seq<Effect>)
    ensures t.owned <= ApplyAll(t, es).owned
    decreases |es|
  {
    if es != [] { EffectsKeepOwned(Apply(t, es[0]), es[1..]); }
  }

  /** A drain stops early only in front of a task that is still there. */
  lemma {:induction false} EndedOwns(t: Tasks, script: seq<Turn>, pos: nat, didWork: bool)
    requires Ready(t) && pos <= |script|
    ensures DrainSpec(t, script, pos, didWork).ended ==> DrainSpec(t, script, pos, didWork).tasks.owned != {}
    decreases |script| - pos, |t.local| + |t.global|
  {
    if PopNext(t).Some? {
      var (key, t') := PopNext(t).value;
      PopKeeps(t);
      HeaderKeeps(t, script, pos);
      match HeaderSpec(t', key, script, pos)
      case None =>
      case Some((t2, pos2)) => EndedOwns(t2, script, pos2, true);
    }
  }

  ghost predicate ReturnedIff(r: (Tasks, Ending, bool)) { r.1.Returned? <==> r.2 && r.0.owned == {} }

  /** A run returns as soon as it may: it is still going on exactly while the root has no output or a
      task is left in the table. */
  lemma {:induction false} RunReturnsIff(t: Tasks, script: seq<Turn>, pos: nat, rootDone: bool)
    requires Ready(t) && pos <= |script| && (rootDone ==> t.owned != {})
    ensures var (t', e, done) := RunSpec(t, script, pos, rootDone); e.Returned? <==> done && t'.owned == {}
    decreases |script| - pos, 0
  {
    if pos < |script| {
      LoopTurnKeeps(t, Ticked, script[pos]);
      EffectsKeepOwned(t.(log := t.log + [Ticked]), script[pos].effects);
      AtRootReturnsIff(LoopTurn(t, Ticked, script[pos]), script, pos + 1, rootDone);
    }
  }

  lemma {:induction false} AtRootReturnsIff(t: Tasks, script: seq<Turn>, pos: nat, rootDone: bool)
    requires Ready(t) && 0 < pos <= |script| && (rootDone ==> t.owned != {})
    ensures ReturnedIff(AtRoot(t, script, pos, rootDone))
    decreases |script| - pos, 2
  {
    if rootDone {
      AfterRootReturnsIff(t, script, pos, true);
    } else if pos < |script| {
      LoopTurnKeeps(t, RootPolled(script[pos].ready), script[pos]);
      AfterRootReturnsIff(LoopTurn(t, RootPolled(script[pos].ready), script[pos]), script, pos + 1, script[pos].ready);
    }
  }

  lemma {:induction false} AfterRootReturnsIff(t: Tasks, script: seq<Turn>, pos: nat, rootDone: bool)
    requires Ready(t) && 0 < pos <= |script|
    ensures ReturnedIff(AfterRoot(t, script, pos, rootDone))
    decreases |script| - pos, 1
  {
    if !(rootDone && t.owned == {}) {
      EndedOwns(t, script, pos, false);
      var d := DrainSpec(t, script, pos, false);
      if !d.ended && !(rootDone && d.tasks.owned == {}) {
        if d.didWork {
          RunReturnsIff(d.tasks, script, d.pos, rootDone);
        } else if d.pos < |script| {
          LoopTurnKeeps(d.tasks, Parked, script[d.pos]);
          EffectsKeepOwned(d.tasks.(log := d.tasks.log + [Parked]), script[d.pos].effects);
          RunReturnsIff(LoopTurn(d.tasks, Parked, script[d.pos]), script, d.pos + 1, rootDone);
        }
      }
    }
  }

  /** When the loop is about to park, every unfinished task is idle: it waits for a wake, none was lost
      on the way to a poll. */
  lemma ParksOnlyIdle(t: Tasks, script: seq<Turn>, pos: nat, id: nat)
    requires Ready(t) && pos <= |script| && !DrainSpec(t, script, pos, false).ended
    requires id < |DrainSpec(t, script, pos, false).tasks.states|
    ensures var state := DrainSpec(t, script, pos, false).tasks.states[id]; state.Idle? || Finished(state)
  {
    assert Ready(DrainSpec(t, script, pos, false).tasks);
  }

  // ---- The run loop ----

  class Exec {
    var tasks: Tasks

    constructor ()
      ensures tasks == EMPTY && Ready(tasks)
    {
      tasks := EMPTY;
    }

    method NextTask() returns (id: Option<nat>)
      modifies this
      ensures match PopNext(old(tasks))
              case None => id == None && tasks == old(tasks)
              case Some((key, t)) => id == Some(key) && tasks == t
    {
      if tasks.local != [] {
        id := Some(tasks.local[|tasks.local| - 1]);
        tasks := tasks.(local := tasks.local[..|tasks.local| - 1]);
      } else if tasks.global != [] {
        id := Some(tasks.global[0]);
        tasks := tasks.(global := tasks.global[1..]);
      } else {
        id := None;
      }
    }

    method HandleHeader(key: nat, script: seq<Turn>, from: nat) returns (pos: nat, ended: bool)
      requires key < |tasks.states| && from <= |script|
      requires tasks.states[key].Completed? ==> key !in tasks.owned
      modifies this
      ensures match HeaderSpec(old(tasks), key, script, from)
              case None => ended && tasks == old(tasks) && pos == from
              case Some((t, p)) => !ended && tasks == t && pos == p
    {
      pos, ended := from, false;
      var state := tasks.states[key];
      if state.Completed? {
        tasks := tasks.(owned := tasks.owned - {key});
        return;
      }
      if key in tasks.owned {
        if pos == |script| { return pos, true; }
        tasks := if state.Cancelled? then CancelTask(tasks, key, script[pos]) else PollTask(tasks, key, script[pos]);
        pos := pos + 1;
      }
    }

    /** Pops headers until both queues are empty. Stops early when the script ends. */
    method Drain(script: seq<Turn>, from: nat) returns (pos: nat, ended: bool, didWork: bool)
      requires Ready(tasks) && from <= |script|
      modifies this
      ensures Drained(tasks, pos, ended, didWork) == DrainSpec(old(tasks), script, from, false)
    {
      pos, ended, didWork := from, false, false;
      ghost var whole := DrainSpec(tasks, script, from, false);
      while true
        invariant Ready(tasks) && from <= pos <= |script| && !ended
        invariant DrainSpec(tasks, script, pos, didWork) == whole
        decreases |script| - pos, |tasks.local| + |tasks.global|
      {
        ghost var t := tasks;
        var id := NextTask();
        if id.None? { return; }
        didWork := true;
        var key := id.value;
        PopKeeps(t);
        HeaderKeeps(t, script, pos);
        pos, ended := HandleHeader(key, script, pos);
        if ended { return; }
      }
    }

    /** Timers and the root future. `stopped` means the script ended. */
    method PollRoot(script: seq<Turn>, from: nat, wasDone: bool) returns (pos: nat, stopped: bool, rootDone: bool)
      requires Ready(tasks) && from <= |script|
      modifies this
      ensures var whole := RunSpec(old(tasks), script, from, wasDone);
        if stopped then whole == (tasks, StillGoing, rootDone)
        else from < pos <= |script| && Ready(tasks) && whole == AfterRoot(tasks, script, pos, rootDone)
    {
      pos, rootDone := from, wasDone;
      if pos == |script| { return pos, true, rootDone; }
      LoopTurnKeeps(tasks, Ticked, script[pos]);
      tasks := LoopTurn(tasks, Ticked, script[pos]);
      pos := pos + 1;
      if !rootDone {
        if pos == |script| { return pos, true, rootDone; }
        LoopTurnKeeps(tasks, RootPolled(script[pos].ready), script[pos]);
        tasks := LoopTurn(tasks, RootPolled(script[pos].ready), script[pos]);
        rootDone := script[pos].ready;
        pos := pos + 1;
      }
      stopped := false;
    }

    /** The queues, the exit tests, and the reactor, which may fire wakers. */
    method RunQueues(script: seq<Turn>, from: nat, rootDone: bool) returns (pos: nat, stopped: bool, returned: bool)
      requires Ready(tasks) && 0 < from <= |script|
      modifies this
      ensures var whole := AfterRoot(old(tasks), script, from, rootDone);
        if stopped then whole == (tasks, if returned then Returned else StillGoing, rootDone)
        else from <= pos <= |script| && Ready(tasks) && whole == RunSpec(tasks, script, pos, rootDone)
    {
      pos := from;
      if rootDone && tasks.owned == {} { return pos, true, true; }
      var ended, didWork;
      pos, ended, didWork := Drain(script, pos);
      if ended { return pos, true, false; }
      if rootDone && tasks.owned == {} { return pos, true, true; }
      if !didWork && tasks.local == [] && tasks.global == [] {
        if pos == |script| { return pos, true, false; }
        LoopTurnKeeps(tasks, Parked, script[pos]);
        tasks := LoopTurn(tasks, Parked, script[pos]);
        pos := pos + 1;
      }
      stopped, returned := false, false;
    }

    /** `block_on`. */
    method BlockOn(script: seq<Turn>) returns (returned: bool, rootDone: bool)
      requires Ready(tasks)
      modifies this
      ensures (tasks, if returned then Returned else StillGoing, rootDone) == RunSpec(old(tasks), script, 0, false)
      ensures NeverPolledAfterEnd(tasks.log)
      ensures returned ==> rootDone && forall id :: 0 <= id < |tasks.states| ==> Finished(tasks.states[id])
      ensures returned <==> rootDone && tasks.owned == {}
    {
      RunIsSafe(tasks, script, 0, false);
      RunReturnsIff(tasks, script, 0, false);
      ghost var whole := RunSpec(tasks, script, 0, false);
      rootDone := false;
      var pos, stopped := 0, false;
      while true
        invariant Ready(tasks) && 0 <= pos <= |script|
        invariant RunSpec(tasks, script, pos, rootDone) == whole
        decreases |script| - pos
      {
        pos, stopped, rootDone := PollRoot(script, pos, rootDone);
        if stopped { return false, rootDone; }
        pos, stopped, returned := RunQueues(script, pos, rootDone);
        if stopped { return; }
      }
    }
  }

  // ---- Wakes that are lost ----

  /** A wake queues a task exactly when it is idle. */
  lemma WakeQueuesIff(t: Tasks, id: nat)
    requires id < |t.states|
    ensures var t' := Apply(t, Wake(id));
      && (t'.states[id].Scheduled? && t'.global == t.global + [id] <==> t.states[id].Idle?)
      && (!t.states[id].Idle? ==> t' == t)
  {
    if !t.states[id].Idle? { assert |t.global + [id]| > |t.global|; }
  }

  /** An abort ends a task exactly when it is idle or waits for its turn, and changes nothing else. */
  lemma AbortCancelsIff(t: Tasks, id: nat)
    requires id < |t.states|
    ensures var t' := Apply(t, Abort(id));
      && (t'.states[id].Cancelled? && t'.log == t.log + [Ended(id)] <==> t.states[id].Idle? || t.states[id].Scheduled?)
      && (!(t.states[id].Idle? || t.states[id].Scheduled?) ==> t' == t)
      && t'.owned == t.owned && t'.global == t.global && t'.local == t.local
  {
    if !(t.states[id].Idle? || t.states[id].Scheduled?) { assert |t.log + [Ended(id)]| > |t.log|; }
  }

  lemma {:induction false} EffectsWhileRunning(t: Tasks, es: seq<Effect>, id: nat)
    requires id < |t.states| && t.states[id].Running?
    ensures var t' := ApplyAll(t, es);
      && id < |t'.states| && t'.states[id].Running? && t'.local == t.local && t.owned <= t'.owned
      && (id in t'.global <==> id in t.global || PushHeader(id) in es)
    decreases |es|
  {
    if es != [] {
      var t1 := Apply(t, es[0]);
      assert id in t1.global <==> id in t.global || es[0] == PushHeader(id) by {
        if t1.global != t.global { assert t1.global == t.global + [t1.global[|t.global|]]; }
      }
      EffectsWhileRunning(t1, es[1..], id);
      assert es == [es[0]] + es[1..];
    }
  }

  /** A poll that is not ready leaves its task idle, and queued only if it was queued before or its
      header was pushed by hand: no wake during the poll, however often and from wherever, counts. */
  lemma PendingPollQueuesIff(t: Tasks, id: nat, es: seq<Effect>)
    requires id < |t.states|
    ensures var t' := PollTask(t, id, Turn(es, false));
      && t'.states[id].Idle? && t'.local == t.local && t.owned <= t'.owned
      && (id in t'.global <==> id in t.global || PushHeader(id) in es)
  {
    EffectsWhileRunning(t.(states := t.states[id := Running], log := t.log + [Polled(id)]), es, id);
  }

  /** A task that wakes itself during its own poll and is not ready is not queued by that wake: the
      wake finds it running, and the poll then leaves it idle. */
  lemma SelfWakeIsLost(t: Tasks, id: nat)
    requires id < |t.states|
    ensures var t' := PollTask(t, id, Turn([Wake(id)], false));
      t'.states[id].Idle? && t'.global == t.global && t'.local == t.local
  {
    var started := t.(states := t.states[id := Running], log := t.log + [Polled(id)]);
    assert Apply(started, Wake(id)) == started;
    assert [Wake(id)][1..] == [];
    assert ApplyAll(started, [Wake(id)]) == ApplyAll(started, []);
  }

  // ---- Tasks that are stranded ----

  /** An owned task that waits for a header which is in no queue. */
  ghost predicate Stranded(t: Tasks, id: nat) {
    && id < |t.states| && id in t.owned && id !in t.global && id !in t.local
    && (t.states[id].Idle? || t.states[id].Cancelled?)
  }

  /** Nothing in the effects queues the task: no header of it, and no wake unless it is cancelled. */
  ghost predicate Ignored(es: seq<Effect>, id: nat, state: TaskState) {
    PushHeader(id) !in es && (state.Cancelled? || Wake(id) !in es)
  }

  ghost predicate IgnoredFrom(script: seq<Turn>, pos: nat, id: nat, state: TaskState) {
    forall k :: pos <= k < |script| ==> Ignored(script[k].effects, id, state)
  }

  function Polls(log: seq<Event>, id: nat): nat {
    if log == [] then 0 else Polls(log[..|log| - 1], id) + (if log[|log| - 1] == Polled(id) then 1 else 0)
  }

  /** Still stranded, no less cancelled than before, and not polled. */
  ghost predicate StaysStranded(t: Tasks, t': Tasks, id: nat)
    requires id < |t.states|
  {
    Stranded(t', id) && (t.states[id].Cancelled? ==> t'.states[id].Cancelled?) && Polls(t'.log, id) == Polls(t.log, id)
  }

  lemma PollsSnoc(log: seq<Event>, e: Event, id: nat)
    ensures Polls(log + [e], id) == Polls(log, id) + (if e == Polled(id) then 1 else 0)
  {
    assert (log + [e])[..|log|] == log;
  }

  lemma ApplyStranded(t: Tasks, e: Effect, id: nat)
    requires Stranded(t, id) && e != PushHeader(id) && (t.states[id].Cancelled? || e != Wake(id))
    ensures StaysStranded(t, Apply(t, e), id)
  {
    match e
    case SpawnTask => assert id !in t.global + [|t.states|];
    case Wake(j) => assert j != id ==> id !in t.global + [j];
    case Abort(j) => PollsSnoc(t.log, Ended(j), id);
    case PushHeader(j) => assert id !in t.global + [j];
  }

  lemma {:induction false} ApplyAllStranded(t: Tasks, es: seq<Effect>, id: nat)
    requires Stranded(t, id) && Ignored(es, id, t.states[id])
    ensures StaysStranded(t, ApplyAll(t, es), id)
    decreases |es|
  {
    if es != [] {
      assert es[0] in es;
      ApplyStranded(t, es[0], id);
      assert forall e :: e in es[1..] ==> e in es;
      ApplyAllStranded(Apply(t, es[0]), es[1..], id);
    }
  }

  lemma PollStranded(t: Tasks, key: nat, turn: Turn, id: nat)
    requires Stranded(t, id) && Ignored(turn.effects, id, t.states[id]) && key < |t.states| && key != id
    ensures StaysStranded(t, PollTask(t, key, turn), id)
  {
    var started := t.(states := t.states[key := Running], log := t.log + [Polled(key)]);
    PollsSnoc(t.log, Polled(key), id);
    ApplyAllStranded(started, turn.effects, id);
    var t' := ApplyAll(started, turn.effects);
    GrowsAll(started, turn.effects);
    PollsSnoc(t'.log, Ended(key), id);
  }

  lemma PopStranded(t: Tasks, id: nat)
    requires Stranded(t, id) && PopNext(t).Some?
    ensures var (key, t') := PopNext(t).value; key != id && StaysStranded(t, t', id)
  {
    var (key, t') := PopNext(t).value;
    if t.local != [] {
      assert t.local == t'.local + [key];
    } else {
      assert t.global == [key] + t'.global;
    }
  }

  lemma HeaderStranded(t: Tasks, key: nat, script: seq<Turn>, pos: nat, id: nat)
    requires Stranded(t, id) && key < |t.states| && key != id && pos <= |script|
    requires IgnoredFrom(script, pos, id, t.states[id])
    ensures match HeaderSpec(t, key, script, pos)
            case None => true
            case Some((t', pos')) => pos <= pos' && StaysStranded(t, t', id)
  {
    if key in t.owned && pos < |script| {
      assert Ignored(script[pos].effects, id, t.states[id]);
      if t.states[key].Cancelled? {
        ApplyAllStranded(t.(owned := t.owned - {key}), script[pos].effects, id);
      } else {
        PollStranded(t, key, script[pos], id);
      }
    }
  }

  lemma {:induction false} DrainStranded(t: Tasks, script: seq<Turn>, pos: nat, didWork: bool, id: nat)
    requires Ready(t) && pos <= |script| && Stranded(t, id) && IgnoredFrom(script, pos, id, t.states[id])
    ensures StaysStranded(t, DrainSpec(t, script, pos, didWork).tasks, id)
    decreases |script| - pos, |t.local| + |t.global|
  {
    if PopNext(t).Some? {
      var (key, t') := PopNext(t).value;
      PopKeeps(t);
      HeaderKeeps(t, script, pos);
      PopStranded(t, id);
      HeaderStranded(t', key, script, pos, id);
      match HeaderSpec(t', key, script, pos)
      case None =>
      case Some((t2, pos2)) => DrainStranded(t2, script, pos2, true, id);
    }
  }

  /** A stranded task strands the run: while nothing queues it again it is never polled, and
      `block_on` does not return. */
  lemma {:induction false} StrandedNeverReturns(t: Tasks, script: seq<Turn>, pos: nat, rootDone: bool, id: nat)
    requires Ready(t) && pos <= |script| && Stranded(t, id) && IgnoredFrom(script, pos, id, t.states[id])
    ensures EndsStranded(t, RunSpec(t, script, pos, rootDone), id)
    decreases |script| - pos, 0
  {
    if pos < |script| {
      OutsideStranded(t, Ticked, script, pos, id);
      var t1 := LoopTurn(t, Ticked, script[pos]);
      AtRootStranded(t1, script, pos + 1, rootDone, id);
      EndsTrans(t, t1, AtRoot(t1, script, pos + 1, rootDone), id);
    }
  }

  lemma {:induction false} AtRootStranded(t: Tasks, script: seq<Turn>, pos: nat, rootDone: bool, id: nat)
    requires Ready(t) && 0 < pos <= |script| && Stranded(t, id) && IgnoredFrom(script, pos, id, t.states[id])
    ensures EndsStranded(t, AtRoot(t, script, pos, rootDone), id)
    decreases |script| - pos, 2
  {
    if rootDone {
      AfterRootStranded(t, script, pos, true, id);
    } else if pos < |script| {
      OutsideStranded(t, RootPolled(script[pos].ready), script, pos, id);
      var t1 := LoopTurn(t, RootPolled(script[pos].ready), script[pos]);
      AfterRootStranded(t1, script, pos + 1, script[pos].ready, id);
      EndsTrans(t, t1, AfterRoot(t1, script, pos + 1, script[pos].ready), id);
    }
  }

  /** A run, or what is left of one, that ends with the task still stranded. */
  ghost predicate EndsStranded(t: Tasks, r: (Tasks, Ending, bool), id: nat)
    requires id < |t.states|
  {
    r.1.StillGoing? && StaysStranded(t, r.0, id)
  }

  lemma EndsTrans(t: Tasks, t1: Tasks, r: (Tasks, Ending, bool), id: nat)
    requires id < |t.states| && StaysStranded(t, t1, id) && EndsStranded(t1, r, id)
    ensures EndsStranded(t, r, id)
  {
  }

  lemma OutsideStranded(t: Tasks, e: Event, script: seq<Turn>, pos: nat, id: nat)
    requires Ready(t) && !OfTask(e) && pos < |script|
    requires Stranded(t, id) && IgnoredFrom(script, pos, id, t.states[id])
    ensures var t' := LoopTurn(t, e, script[pos]);
      Ready(t') && StaysStranded(t, t', id) && IgnoredFrom(script, pos + 1, id, t'.states[id])
  {
    assert Ignored(script[pos].effects, id, t.states[id]);
    LoopTurnKeeps(t, e, script[pos]);
    PollsSnoc(t.log, e, id);
    ApplyAllStranded(t.(log := t.log + [e]), script[pos].effects, id);
    IgnoredLater(script, pos, pos + 1, id, t.states[id], LoopTurn(t, e, script[pos]).states[id]);
  }

  lemma IgnoredLater(script: seq<Turn>, pos: nat, later: nat, id: nat, state: TaskState, state': TaskState)
    requires IgnoredFrom(script, pos, id, state) && pos <= later && (state.Cancelled? ==> state'.Cancelled?)
    ensures IgnoredFrom(script, later, id, state')
  {
    forall k | later <= k < |script| ensures Ignored(script[k].effects, id, state') {
      assert Ignored(script[k].effects, id, state);
    }
  }

  lemma {:induction false} AfterRootStranded(t: Tasks, script: seq<Turn>, pos: nat, rootDone: bool, id: nat)
    requires Ready(t) && 0 < pos <= |script| && Stranded(t, id) && IgnoredFrom(script, pos, id, t.states[id])
    ensures EndsStranded(t, AfterRoot(t, script, pos, rootDone), id)
    decreases |script| - pos, 1
  {
    DrainStranded(t, script, pos, false, id);
    var d := DrainSpec(t, script, pos, false);
    if !d.ended {
      IgnoredLater(script, pos, d.pos, id, t.states[id], d.tasks.states[id]);
      if d.didWork {
        StrandedNeverReturns(d.tasks, script, d.pos, rootDone, id);
        EndsTrans(t, d.tasks, RunSpec(d.tasks, script, d.pos, rootDone), id);
      } else if d.pos < |script| {
        ParkedStranded(d.tasks, script, d.pos, rootDone, id);
        EndsTrans(t, d.tasks, RunSpec(LoopTurn(d.tasks, Parked, script[d.pos]), script, d.pos + 1, rootDone), id);
      }
    }
  }

  lemma {:induction false} ParkedStranded(t: Tasks, script: seq<Turn>, pos: nat, rootDone: bool, id: nat)
    requires Ready(t) && pos < |script| && Stranded(t, id) && IgnoredFrom(script, pos, id, t.states[id])
    ensures var t' := LoopTurn(t, Parked, script[pos]);
      Ready(t') && EndsStranded(t, RunSpec(t', script, pos + 1, rootDone), id)
    decreases |script| - pos, 0
  {
    var t' := LoopTurn(t, Parked, script[pos]);
    OutsideStranded(t, Parked, script, pos, id);
    StrandedNeverReturns(t', script, pos + 1, rootDone, id);
    EndsTrans(t, t', RunSpec(t', script, pos + 1, rootDone), id);
  }

  /** Two ways to strand a task: `abort` on an idle one, and a poll that relied on its own wake. */
  lemma StrandedByAbortOrSelfWake(t: Tasks, id: nat, es: seq<Effect>)
    requires id < |t.states| && id in t.owned && id !in t.global && id !in t.local
    ensures t.states[id].Idle? ==> Stranded(Apply(t, Abort(id)), id)
    ensures PushHeader(id) !in es ==> Stranded(PollTask(t, id, Turn(es, false)), id)
  {
    PendingPollQueuesIff(t, id, es);
  }

  const BEGUN: seq<Event> := [Ticked, RootPolled(true)]

  const SPAWNED := Tasks([Scheduled], {0}, [0], [], BEGUN)

  const YIELDED := Tasks([Idle], {0}, [], [], BEGUN + [Polled(0)])

  lemma EffectsOnce(t: Tasks, e: Effect)
    ensures ApplyAll(t, [e]) == Apply(t, e)
  {
    assert [e][1..] == [] && ApplyAll(Apply(t, e), []) == Apply(t, e);
  }

  lemma YieldPolled()
    ensures PollTask(SPAWNED.(global := []), 0, Turn([Wake(0)], false)) == YIELDED
  {
    var started := Tasks([Running], {0}, [], [], BEGUN + [Polled(0)]);
    assert SPAWNED.states[0 := Running] == [Running];
    EffectsOnce(started, Wake(0));
    assert started.states[0 := Idle] == [Idle];
  }

  lemma {:induction false} YieldDrained(script: seq<Turn>)
    requires |script| >= 3 && script[2] == Turn([Wake(0)], false)
    ensures Ready(SPAWNED) && Ready(YIELDED)
    ensures DrainSpec(SPAWNED, script, 2, false) == Drained(YIELDED, 3, false, true)
  {
    var popped := SPAWNED.(global := []);
    assert 0 in SPAWNED.global && SPAWNED.global[1..] == [];
    assert PopNext(SPAWNED) == Some((0, popped));
    YieldPolled();
    assert HeaderSpec(popped, 0, script, 2) == Some((YIELDED, 3));
    assert PopNext(YIELDED).None?;
    DrainOne(SPAWNED, script, 2, 0, popped, YIELDED, 3);
  }

  lemma {:induction false} DrainOne(t: Tasks, script: seq<Turn>, pos: nat, key: nat, t': Tasks, t2: Tasks, pos2: nat)
    requires Ready(t) && pos <= |script| && PopNext(t) == Some((key, t')) && key < |t'.states|
    requires HeaderSpec(t', key, script, pos) == Some((t2, pos2)) && pos2 <= |script| && PopNext(t2).None?
    ensures DrainSpec(t, script, pos, false) == Drained(t2, pos2, false, true)
  {
    PopKeeps(t);
    HeaderKeeps(t, script, pos);
  }

  lemma {:induction false} YieldBegins(script: seq<Turn>)
    requires |script| >= 2 && script[0].effects == [] && script[1] == Turn([SpawnTask], true)
    ensures LoopTurn(LoopTurn(EMPTY, Ticked, script[0]), RootPolled(true), script[1]) == SPAWNED
  {
    var t1 := Tasks([], {}, [], [], [Ticked]);
    assert LoopTurn(EMPTY, Ticked, script[0]) == t1;
    EffectsOnce(t1.(log := t1.log + [RootPolled(true)]), SpawnTask);
  }

  /** The root spawns one task and is done; the task yields by waking itself, as cooperative tasks do.
      Unless something else wakes it, it is never polled again and `block_on` never returns. */
  lemma {:induction false} YieldStrandsTheRun(script: seq<Turn>)
    requires |script| >= 3 && script[0].effects == [] && script[1] == Turn([SpawnTask], true)
    requires script[2] == Turn([Wake(0)], false) && IgnoredFrom(script, 3, 0, Idle)
    ensures Ready(EMPTY)
    ensures var (t, e, rootDone) := RunSpec(EMPTY, script, 0, false);
      e.StillGoing? && Stranded(t, 0) && Polls(t.log, 0) == 1
  {
    YieldBegins(script);
    YieldDrained(script);
    StrandedNeverReturns(YIELDED, script, 3, true, 0);
    PollsSnoc(BEGUN, Polled(0), 0);
    assert Polls(BEGUN, 0) == 0 by { assert BEGUN[..1] == [Ticked] && [Ticked][..0] == []; }
    assert AtRoot(LoopTurn(EMPTY, Ticked, script[0]), script, 1, false) == AfterRoot(SPAWNED, script, 2, true);
    assert AfterRoot(SPAWNED, script, 2, true) == RunSpec(YIELDED, script, 3, true);
  }

  /** Some turn from `a` up to `b` pushes the header by hand. */
  ghost predicate PushedIn(script: seq<Turn>, a: nat, b: nat, id: nat) {
    exists k :: a <= k < b <= |script| && PushHeader(id) in script[k].effects
  }

  ghost predicate InQueue(t: Tasks, id: nat) { id in t.global || id in t.local }

  lemma {:induction false} EffectsOnCancelled(t: Tasks, es: seq<Effect>, id: nat)
    requires id < |t.states| && t.states[id].Cancelled?
    ensures var t' := ApplyAll(t, es);
      && id < |t'.states| && t'.states[id].Cancelled? && t'.local == t.local
      && (id in t'.owned <==> id in t.owned)
      && (id in t'.global <==> id in t.global || PushHeader(id) in es)
    decreases |es|
  {
    if es != [] {
      var t1 := Apply(t, es[0]);
      assert id in t1.global <==> id in t.global || es[0] == PushHeader(id) by {
        if t1.global != t.global { assert t1.global == t.global + [t1.global[|t.global|]]; }
      }
      EffectsOnCancelled(t1, es[1..], id);
      assert es == [es[0]] + es[1..];
    }
  }

  /** What a cancelled task keeps while another header is handled. */
  lemma HeaderOnCancelled(t: Tasks, key: nat, script: seq<Turn>, pos: nat, id: nat)
    requires id < |t.states| && t.states[id].Cancelled? && key < |t.states| && key != id && pos <= |script|
    ensures match HeaderSpec(t, key, script, pos)
            case None => true
            case Some((t', pos')) =>
              && pos <= pos' <= |script| && id < |t'.states| && t'.states[id].Cancelled?
              && (id in t'.owned <==> id in t.owned)
              && (InQueue(t', id) <==> InQueue(t, id) || PushedIn(script, pos, pos', id))
  {
    if key in t.owned && pos < |script| {
      var es := script[pos].effects;
      assert PushedIn(script, pos, pos + 1, id) <==> PushHeader(id) in es;
      if t.states[key].Cancelled? {
        EffectsOnCancelled(t.(owned := t.owned - {key}), es, id);
      } else {
        EffectsOnCancelled(t.(states := t.states[key := Running], log := t.log + [Polled(key)]), es, id);
      }
    }
  }

  lemma {:induction false} GoneStaysGone(t: Tasks, script: seq<Turn>, pos: nat, didWork: bool, id: nat)
    requires Ready(t) && pos <= |script| && id < |t.states| && t.states[id].Cancelled? && id !in t.owned
    ensures id !in DrainSpec(t, script, pos, didWork).tasks.owned
    decreases |script| - pos, |t.local| + |t.global|
  {
    if PopNext(t).Some? {
      var (key, t') := PopNext(t).value;
      PopKeeps(t);
      HeaderKeeps(t, script, pos);
      if key != id { HeaderOnCancelled(t', key, script, pos, id); }
      match HeaderSpec(t', key, script, pos)
      case None =>
      case Some((t2, pos2)) => GoneStaysGone(t2, script, pos2, true, id);
    }
  }

  lemma PopQueue(t: Tasks, id: nat)
    requires PopNext(t).Some?
    ensures var (key, t') := PopNext(t).value; InQueue(t, id) <==> key == id || InQueue(t', id)
  {
    var (key, t') := PopNext(t).value;
    if t.local != [] {
      assert t.local == t'.local + [key];
    } else {
      assert t.global == [key] + t'.global;
    }
  }

  lemma PushedSplit(script: seq<Turn>, a: nat, b: nat, c: nat, id: nat)
    requires a <= b <= c <= |script|
    ensures PushedIn(script, a, c, id) <==> PushedIn(script, a, b, id) || PushedIn(script, b, c, id)
  {
    if PushedIn(script, a, c, id) {
      var k :| a <= k < c <= |script| && PushHeader(id) in script[k].effects;
      assert k < b || b <= k;
    }
  }

  /** A pass of the loop drops a cancelled task exactly when a header of it is queued before the pass
      or pushed by hand during it. `abort` itself queues none. */
  lemma {:induction false} AbortDropsIff(t: Tasks, script: seq<Turn>, pos: nat, didWork: bool, id: nat)
    requires Ready(t) && pos <= |script| && id < |t.states| && t.states[id].Cancelled? && id in t.owned
    requires !DrainSpec(t, script, pos, didWork).ended
    ensures var d := DrainSpec(t, script, pos, didWork);
      id !in d.tasks.owned <==> InQueue(t, id) || PushedIn(script, pos, d.pos, id)
    decreases |script| - pos, |t.local| + |t.global|
  {
    if PopNext(t).Some? {
      var (key, t') := PopNext(t).value;
      PopKeeps(t);
      HeaderKeeps(t, script, pos);
      PopQueue(t, id);
      var (t2, pos2) := HeaderSpec(t', key, script, pos).value;
      if key == id {
        EffectsOnCancelled(t'.(owned := t'.owned - {id}), script[pos].effects, id);
        GoneStaysGone(t2, script, pos2, true, id);
      } else {
        HeaderOnCancelled(t', key, script, pos, id);
        AbortDropsIff(t2, script, pos2, true, id);
        PushedSplit(script, pos, pos2, DrainSpec(t, script, pos, didWork).pos, id);
      }
    }
  }
}
