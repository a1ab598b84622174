/**
  The lifecycle engine: start modules in boot order, wait, stop them in reverse, under every
  outcome of starts, stops, hooks and the drain timeout.
 */
module Lifecycle {
  import opened Prelude

  datatype Phase = Config | Validate | Init | Start | Ready | Stopping | Stopped

  type Error = nat

  datatype RunError = HookFailed(e: Error) | StartFailed(idx: nat, e: Error) | StopFailed(e: Error)

  /** What the modules, the hooks and the clock do: `None` is success. When the drain timeout wins,
      `stopCalls` of the `on_stop` calls have been made. */
  datatype World = World(starts: seq<Option<Error>>, stops: seq<Option<Error>>,
                         hooks: Phase -> Option<Error>, drainFinishes: bool, stopCalls: nat)

  ghost predicate Fits(w: World) {
    |w.starts| == |w.stops| && w.stopCalls <= |w.stops|
  }

  /** `n-1, …, 1, 0`. */
  function Countdown(n: nat): (s: seq<nat>)
    ensures |s| == n && forall k :: 0 <= k < n ==> s[k] == n - 1 - k
  {
    if n == 0 then [] else [n - 1] + Countdown(n - 1)
  }

  /** The number of modules whose `on_start` succeeds before the first failure. */
  function StartedCount(starts: seq<Option<Error>>): (m: nat)
    ensures m <= |starts|
    ensures forall i :: 0 <= i < m ==> starts[i].None?
    ensures m < |starts| ==> starts[m].Some?
  {
    if starts == [] || starts[0].Some? then 0 else 1 + StartedCount(starts[1..])
  }

  /** The error of the first call, in call order, that failed. */
  function FirstError(stops: seq<Option<Error>>, calls: seq<nat>): (r: Option<Error>)
    requires forall k :: 0 <= k < |calls| ==> calls[k] < |stops|
    ensures r.None? <==> forall k :: 0 <= k < |calls| ==> stops[calls[k]].None?
    ensures r.Some? ==>
      exists k :: 0 <= k < |calls| && stops[calls[k]] == r && forall j :: 0 <= j < k ==> stops[calls[j]].None?
  {
    if calls == [] then None
    else if stops[calls[0]].Some? then stops[calls[0]]
    else FirstError(stops, calls[1..])
  }

  lemma {:induction false} FirstErrorSnoc(stops: seq<Option<Error>>, calls: seq<nat>, i: nat)
    requires forall k :: 0 <= k < |calls| ==> calls[k] < |stops|
    requires i < |stops|
    ensures FirstError(stops, calls + [i]) ==
            if FirstError(stops, calls).Some? then FirstError(stops, calls) else stops[i]
  {
    if calls == [] {
      assert ([] + [i])[1..] == [];
    } else {
      assert (calls + [i])[1..] == calls[1..] + [i];
      FirstErrorSnoc(stops, calls[1..], i);
    }
  }

  /** Stops `n` modules in reverse, trying all of them; reports the first error. */
  method Rollback(n: nat, stops: seq<Option<Error>>) returns (firstErr: Option<Error>, calls: seq<nat>)
    requires n <= |stops|
    ensures calls == Countdown(n)
    ensures firstErr == FirstError(stops, Countdown(n))
  {
    firstErr, calls := None, [];
    var i := n;
    while i > 0
      invariant 0 <= i <= n && calls == Countdown(n)[..n - i]
      invariant firstErr == FirstError(stops, calls)
    {
      i := i - 1;
      FirstErrorSnoc(stops, calls, i);
      calls := calls + [i];
      if stops[i].Some? && firstErr.None? { firstErr := stops[i]; }
    }
  }

  /** `LifecycleEngine::run`: returns the result and the modules `on_stop` was called on, in order. */
  method Run(w: World) returns (r: Result<(), RunError>, stopped: seq<nat>)
    requires Fits(w)
    ensures var m := StartedCount(w.starts);
      && stopped <= Countdown(m)
      // a failed start is reported, whatever the stops do, and everything started is stopped
      && (Booted(w) && m < |w.starts| ==> r == Err(StartFailed(m, w.starts[m].value)) && stopped == Countdown(m))
      // a clean drain stops everything, a timeout what was reached
      && (Running(w) ==> stopped == if w.drainFinishes then Countdown(m) else Countdown(m)[..w.stopCalls])
      // the last hook's error hides stop errors, a timeout hides them too, else the first one is reported
      && (Running(w) && w.hooks(Stopped).Some? ==> r == Err(HookFailed(w.hooks(Stopped).value)))
      && (Running(w) && w.hooks(Stopped).None? ==>
            match (if w.drainFinishes then FirstError(w.stops, Countdown(|w.stops|)) else None)
            case None => r == Ok(())
            case Some(e) => r == Err(StopFailed(e)))
      // otherwise the first failing hook is reported and nothing is stopped
      && (!(Booted(w) && m < |w.starts|) && !Running(w) ==>
            var hook := FirstHook(w, UP_TO_STOPPING);
            stopped == [] && hook.Some? && r == Err(HookFailed(hook.value)))
  {
    stopped := [];
    var booted := NotifyBoot(w);
    if booted.Some? { return Err(HookFailed(booted.value)), stopped; }
    var i := 0;
    while i < |w.starts|
      invariant 0 <= i <= StartedCount(w.starts)
    {
      if w.starts[i].Some? {
        var rollbackErr, calls := Rollback(i, w.stops);
        return Err(StartFailed(i, w.starts[i].value)), calls;
      }
      i := i + 1;
    }
    HooksInOrder(w);
    if w.hooks(Start).Some? { return Err(HookFailed(w.hooks(Start).value)), stopped; }
    if w.hooks(Ready).Some? { return Err(HookFailed(w.hooks(Ready).value)), stopped; }
    if w.hooks(Stopping).Some? { return Err(HookFailed(w.hooks(Stopping).value)), stopped; }
    var stopErr: Option<Error>;
    stopErr, stopped := Rollback(|w.starts|, w.stops);
    if !w.drainFinishes { stopErr, stopped := None, stopped[..w.stopCalls]; }
    if w.hooks(Stopped).Some? { return Err(HookFailed(w.hooks(Stopped).value)), stopped; }
    r := if stopErr.Some? then Err(StopFailed(stopErr.value)) else Ok(());
  }

  method NotifyBoot(w: World) returns (e: Option<Error>)
    ensures e.None? <==> Booted(w)
    ensures e.Some? ==> FirstHook(w, UP_TO_STOPPING) == e
  {
    HooksInOrder(w);
    e := w.hooks(Config);
    if e.None? { e := w.hooks(Validate); }
    if e.None? { e := w.hooks(Init); }
  }

  /** The hooks up to the one before the modules are stopped, in their order. */
  const UP_TO_STOPPING: seq<Phase> := [Config, Validate, Init, Start, Ready, Stopping]

  /** The error of the first hook that fails. */
  function FirstHook(w: World, phases: seq<Phase>): Option<Error> {
    if phases == [] then None
    else if w.hooks(phases[0]).Some? then w.hooks(phases[0])
    else FirstHook(w, phases[1..])
  }

  lemma HooksInOrder(w: World)
    ensures FirstHook(w, UP_TO_STOPPING) ==
      if w.hooks(Config).Some? then w.hooks(Config) else if w.hooks(Validate).Some? then w.hooks(Validate)
      else if w.hooks(Init).Some? then w.hooks(Init) else if w.hooks(Start).Some? then w.hooks(Start)
      else if w.hooks(Ready).Some? then w.hooks(Ready) else w.hooks(Stopping)
  {
    assert UP_TO_STOPPING == [Config] + ([Validate] + ([Init] + ([Start] + ([Ready] + ([Stopping] + [])))));
    HookStep(w, Stopping, []);
    HookStep(w, Ready, [Stopping] + []);
    HookStep(w, Start, [Ready] + ([Stopping] + []));
    HookStep(w, Init, [Start] + ([Ready] + ([Stopping] + [])));
    HookStep(w, Validate, [Init] + ([Start] + ([Ready] + ([Stopping] + []))));
    HookStep(w, Config, [Validate] + ([Init] + ([Start] + ([Ready] + ([Stopping] + [])))));
  }

  lemma HookStep(w: World, phase: Phase, later: seq<Phase>)
    ensures FirstHook(w, [phase] + later) == if w.hooks(phase).Some? then w.hooks(phase) else FirstHook(w, later)
  {
    assert ([phase] + later)[1..] == later;
  }

  /** The hooks before the start phase all succeeded. */
  ghost predicate Booted(w: World) { w.hooks(Config).None? && w.hooks(Validate).None? && w.hooks(Init).None? }

  /** The shutdown sequence was reached with every module started. */
  ghost predicate Running(w: World) {
    && Booted(w) && StartedCount(w.starts) == |w.starts|
    && w.hooks(Start).None? && w.hooks(Ready).None? && w.hooks(Stopping).None?
  }

  /** Any prefix of the countdown stops only started modules, each once, latest first. */
  lemma StopsOnlyStarted(w: World, stopped: seq<nat>)
    requires stopped <= Countdown(StartedCount(w.starts))
    ensures forall k :: 0 <= k < |stopped| ==> stopped[k] < |w.starts| && w.starts[stopped[k]].None?
    ensures forall a, b :: 0 <= a < b < |stopped| ==> stopped[a] > stopped[b]
  {
    var m := StartedCount(w.starts);
    assert forall k :: 0 <= k < |stopped| ==> stopped[k] == Countdown(m)[k];
  }
}
