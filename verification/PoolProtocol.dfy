/**
  The pool under any interleaving of its clients and health sweeps.

  Every locked section is one atomic step. A slot is one call of `acquire` with what became of it;
  a connection that is never released stays in its slot, which also covers connections dropped
  with an abandoned transaction. `RunKeepsInvariant` is the safety of every run.
 */
module PoolProtocol {
  import opened Prelude
  import opened Words
  import opened Pool

  datatype Slot = Trying | Opening | Holding(conn: Conn) | Done

  /** A sweep in progress: what it still has to look at, and what it will put back. */
  datatype SweepState = SweepState(toCheck: seq<IdleConn>, survivors: seq<IdleConn>, now: int)

  /** `births` and `releases` record when each connection was opened and last released. */
  datatype State = State(inner: Inner, slots: seq<Slot>, sweeps: seq<SweepState>, births: seq<int>,
                         releases: map<nat, int>)

  datatype Action =
    | Arrive
    | Acquire(c: nat, now: int)
    | OpenOk(c: nat, now: int)
    | OpenErr(c: nat)
    | ReleaseBy(c: nat, now: int)
    | ClosePool
    | SweepBegin(now: int)
    | SweepEvict(s: nat)
    | SweepKeep(s: nat)
    | SweepEnd(s: nat)

  const START := State(Inner([], 0, false), [], [], [], map[])

  /** What a slot becomes after a turn of `acquire`. */
  function SlotAfter(o: Outcome): Slot {
    match o
    case PoolClosed => Done
    case Evicted => Trying
    case Got(c) => Holding(c)
    case SlotReserved => Opening
    case Exhausted => Trying
  }

  /** One step; `None` when the action is not enabled. */
  function Next(cfg: Config, s: State, a: Action): Option<State> {
    match a
    case Arrive => Some(s.(slots := s.slots + [Trying]))
    case Acquire(c, now) =>
      if c < |s.slots| && s.slots[c].Trying? then
        var (g, o) := TryAcquire(cfg, s.inner, now);
        Some(s.(inner := g, slots := s.slots[c := SlotAfter(o)]))
      else None
    case OpenOk(c, now) =>
      if c < |s.slots| && s.slots[c].Opening? then
        Some(s.(slots := s.slots[c := Holding(Conn(|s.births|, now))], births := s.births + [now]))
      else None
    case OpenErr(c) =>
      if c < |s.slots| && s.slots[c].Opening? then
        Some(s.(inner := OpenFailed(s.inner), slots := s.slots[c := Done]))
      else None
    case ReleaseBy(c, now) =>
      if c < |s.slots| && s.slots[c].Holding? then
        var conn := s.slots[c].conn;
        Some(s.(inner := Release(cfg, s.inner, conn, now), slots := s.slots[c := Done],
                releases := s.releases[conn.id := now]))
      else None
    case ClosePool => Some(s.(inner := Close(s.inner)))
    case SweepBegin(now) =>
      Some(s.(inner := TakeIdle(s.inner), sweeps := s.sweeps + [SweepState(s.inner.idle, [], now)]))
    case SweepEvict(k) =>
      if k < |s.sweeps| && s.sweeps[k].toCheck != [] then
        Some(s.(inner := DropOne(s.inner), sweeps := s.sweeps[k := s.sweeps[k].(toCheck := s.sweeps[k].toCheck[1..])]))
      else None
    case SweepKeep(k) =>
      if k < |s.sweeps| && s.sweeps[k].toCheck != [] && !Expired(cfg, s.sweeps[k].toCheck[0], s.sweeps[k].now) then
        var w := s.sweeps[k];
        Some(s.(sweeps := s.sweeps[k := w.(toCheck := w.toCheck[1..], survivors := w.survivors + [w.toCheck[0]])]))
      else None
    case SweepEnd(k) =>
      if k < |s.sweeps| && s.sweeps[k].toCheck == [] then
        var w := s.sweeps[k];
        Some(s.(inner := PutBack(s.inner, w.survivors), sweeps := s.sweeps[k := w.(survivors := [])]))
      else None
  }

  // ---- Where connections are ----

  function InIdle(es: seq<IdleConn>, id: nat): nat {
    if es == [] then 0 else InIdle(es[..|es| - 1], id) + (if es[|es| - 1].conn.id == id then 1 else 0)
  }

  function InSlot(s: Slot, id: nat): nat { if s.Holding? && s.conn.id == id then 1 else 0 }

  function InSlots(ss: seq<Slot>, id: nat): nat {
    if ss == [] then 0 else InSlots(ss[..|ss| - 1], id) + InSlot(ss[|ss| - 1], id)
  }

  function InSweep(w: SweepState, id: nat): nat { InIdle(w.toCheck, id) + InIdle(w.survivors, id) }

  function InSweeps(ws: seq<SweepState>, id: nat): nat {
    if ws == [] then 0 else InSweeps(ws[..|ws| - 1], id) + InSweep(ws[|ws| - 1], id)
  }

  /** In how many places a connection is. */
  function Places(s: State, id: nat): nat {
    InIdle(s.inner.idle, id) + InSlots(s.slots, id) + InSweeps(s.sweeps, id)
  }

  // ---- How many there are ----

  function CheckedOut(ss: seq<Slot>): nat {
    if ss == [] then 0 else CheckedOut(ss[..|ss| - 1]) + (if ss[|ss| - 1].Holding? then 1 else 0)
  }

  function Reserved(ss: seq<Slot>): nat {
    if ss == [] then 0 else Reserved(ss[..|ss| - 1]) + (if ss[|ss| - 1].Opening? then 1 else 0)
  }

  function SweepSize(w: SweepState): nat { |w.toCheck| + |w.survivors| }

  function Swept(ws: seq<SweepState>): nat {
    if ws == [] then 0 else Swept(ws[..|ws| - 1]) + SweepSize(ws[|ws| - 1])
  }

  // ---- How the sums move ----

  lemma {:induction false} InIdleAppend(a: seq<IdleConn>, b: seq<IdleConn>, id: nat)
    ensures InIdle(a + b, id) == InIdle(a, id) + InIdle(b, id)
  {
    if b == [] {
      assert a + b == a;
    } else {
      assert (a + b)[..|a + b| - 1] == a + b[..|b| - 1];
      InIdleAppend(a, b[..|b| - 1], id);
    }
  }

  lemma InIdleOne(e: IdleConn, id: nat)
    ensures InIdle([e], id) == if e.conn.id == id then 1 else 0
  {
    assert [e][..0] == [];
  }

  lemma InIdleHead(es: seq<IdleConn>, id: nat)
    requires es != []
    ensures InIdle(es, id) == (if es[0].conn.id == id then 1 else 0) + InIdle(es[1..], id)
  {
    InIdleAppend([es[0]], es[1..], id);
    InIdleOne(es[0], id);
    assert es == [es[0]] + es[1..];
  }

  lemma {:induction false} SlotsUpdate(ss: seq<Slot>, c: nat, x: Slot)
    requires c < |ss|
    ensures Reserved(ss[c := x]) == Reserved(ss) - (if ss[c].Opening? then 1 else 0) + (if x.Opening? then 1 else 0)
    ensures CheckedOut(ss[c := x]) == CheckedOut(ss) - (if ss[c].Holding? then 1 else 0) + (if x.Holding? then 1 else 0)
  {
    var init := ss[..|ss| - 1];
    if c == |ss| - 1 {
      assert ss[c := x][..|ss| - 1] == init;
    } else {
      assert ss[c := x][..|ss| - 1] == init[c := x];
      SlotsUpdate(init, c, x);
    }
  }

  lemma {:induction false} InSlotsUpdate(ss: seq<Slot>, c: nat, x: Slot, id: nat)
    requires c < |ss|
    ensures InSlots(ss[c := x], id) == InSlots(ss, id) - InSlot(ss[c], id) + InSlot(x, id)
  {
    var init := ss[..|ss| - 1];
    if c == |ss| - 1 {
      assert ss[c := x][..|ss| - 1] == init;
    } else {
      assert ss[c := x][..|ss| - 1] == init[c := x];
      InSlotsUpdate(init, c, x, id);
    }
  }

  lemma {:induction false} SweepsUpdate(ws: seq<SweepState>, k: nat, x: SweepState)
    requires k < |ws|
    ensures Swept(ws[k := x]) == Swept(ws) - SweepSize(ws[k]) + SweepSize(x)
  {
    var init := ws[..|ws| - 1];
    if k == |ws| - 1 {
      assert ws[k := x][..|ws| - 1] == init;
    } else {
      assert ws[k := x][..|ws| - 1] == init[k := x];
      SweepsUpdate(init, k, x);
    }
  }

  lemma {:induction false} InSweepsUpdate(ws: seq<SweepState>, k: nat, x: SweepState, id: nat)
    requires k < |ws|
    ensures InSweeps(ws[k := x], id) == InSweeps(ws, id) - InSweep(ws[k], id) + InSweep(x, id)
  {
    var init := ws[..|ws| - 1];
    if k == |ws| - 1 {
      assert ws[k := x][..|ws| - 1] == init;
    } else {
      assert ws[k := x][..|ws| - 1] == init[k := x];
      InSweepsUpdate(init, k, x, id);
    }
  }

  // ---- The count ----

  /** Every unit of `live` is accounted for, and the pool is not too large. */
  ghost predicate Counted(cfg: Config, s: State) {
    && s.inner.live == |s.inner.idle| + CheckedOut(s.slots) + Reserved(s.slots) + Swept(s.sweeps)
    && s.inner.live <= cfg.maxSize < U64
  }

  /** Every step of every client and every sweep keeps the count. */
  lemma StepCounted(cfg: Config, s: State, a: Action)
    requires Counted(cfg, s) && Next(cfg, s, a).Some?
    ensures Counted(cfg, Next(cfg, s, a).value)
  {
    if a.SweepBegin? || a.SweepEvict? || a.SweepKeep? || a.SweepEnd? {
      SweepStepCounted(cfg, s, a);
    } else if a.Acquire? {
      AcquireCounted(cfg, s, a);
    } else {
      ClientStepCounted(cfg, s, a);
    }
  }

  lemma AcquireCounted(cfg: Config, s: State, a: Action)
    requires Counted(cfg, s) && Next(cfg, s, a).Some? && a.Acquire?
    ensures Counted(cfg, Next(cfg, s, a).value)
  {
    SlotsUpdate(s.slots, a.c, Next(cfg, s, a).value.slots[a.c]);
  }

  lemma ClientStepCounted(cfg: Config, s: State, a: Action)
    requires Counted(cfg, s) && Next(cfg, s, a).Some?
    requires !(a.SweepBegin? || a.SweepEvict? || a.SweepKeep? || a.SweepEnd? || a.Acquire?)
    ensures Counted(cfg, Next(cfg, s, a).value)
  {
    match a
    case Arrive => assert (s.slots + [Trying])[..|s.slots|] == s.slots;
    case OpenOk(c, now) => SlotsUpdate(s.slots, c, Holding(Conn(|s.births|, now)));
    case OpenErr(c) => OpenErrCounted(cfg, s, c);
    case ReleaseBy(c, now) => SlotsUpdate(s.slots, c, Done);
    case _ =>
  }

  lemma OpenErrCounted(cfg: Config, s: State, c: nat)
    requires Counted(cfg, s) && c < |s.slots| && s.slots[c].Opening?
    ensures Counted(cfg, s.(inner := OpenFailed(s.inner), slots := s.slots[c := Done]))
  {
    SlotsUpdate(s.slots, c, Done);
  }

  lemma SweepStepCounted(cfg: Config, s: State, a: Action)
    requires Counted(cfg, s) && Next(cfg, s, a).Some?
    requires a.SweepBegin? || a.SweepEvict? || a.SweepKeep? || a.SweepEnd?
    ensures Counted(cfg, Next(cfg, s, a).value)
  {
    var s' := Next(cfg, s, a).value;
    if a.SweepBegin? {
      assert s'.sweeps[..|s.sweeps|] == s.sweeps;
    } else {
      SweepsUpdate(s.sweeps, a.s, s'.sweeps[a.s]);
    }
  }

  /** In a counted state no subtraction is cut off and none wraps, and a release into an open pool
      always finds room: the at-capacity branch cannot be taken. */
  lemma SubtractionsExact(cfg: Config, s: State, a: Action)
    requires Counted(cfg, s) && Next(cfg, s, a).Some?
    ensures a.Acquire? && TryAcquire(cfg, s.inner, a.now).1.Evicted? ==> s.inner.live >= 1
    ensures a.OpenErr? ==> s.inner.live >= 1 && Next(cfg, s, a).value.inner.live == s.inner.live - 1
    ensures a.ReleaseBy? ==> s.inner.live >= 1 && |s.inner.idle| < cfg.maxSize
    ensures a.ClosePool? ==> s.inner.live >= |s.inner.idle|
    ensures a.SweepEvict? ==> s.inner.live >= 1
  {
    if a.OpenErr? || a.ReleaseBy? { SlotsUpdate(s.slots, a.c, Done); }
    if a.SweepEvict? { SweepsUpdate(s.sweeps, a.s, SweepState([], [], 0)); }
  }

  // ---- One place per connection ----

  ghost predicate OnePlace(s: State) {
    forall id: nat :: Places(s, id) <= if id < |s.births| then 1 else 0
  }

  lemma ClientPlaces(cfg: Config, s: State, a: Action, id: nat)
    requires Next(cfg, s, a).Some? && !(a.SweepBegin? || a.SweepEvict? || a.SweepKeep? || a.SweepEnd?)
    ensures var s' := Next(cfg, s, a).value;
            Places(s', id) <= Places(s, id) + if a.OpenOk? && id == |s.births| then 1 else 0
  {
    var s' := Next(cfg, s, a).value;
    match a
    case Arrive => assert s'.slots[..|s.slots|] == s.slots;
    case Acquire(c, now) => InSlotsUpdate(s.slots, c, s'.slots[c], id);
    case OpenOk(c, now) => InSlotsUpdate(s.slots, c, s'.slots[c], id);
    case OpenErr(c) => InSlotsUpdate(s.slots, c, Done, id);
    case ReleaseBy(c, now) =>
      InSlotsUpdate(s.slots, c, Done, id);
      var e := IdleConn(s.slots[c].conn, s.slots[c].conn.createdAt, now);
      InIdleAppend(s.inner.idle, [e], id);
      InIdleOne(e, id);
    case _ =>
  }

  lemma SweepPlaces(cfg: Config, s: State, a: Action, id: nat)
    requires Next(cfg, s, a).Some? && (a.SweepBegin? || a.SweepEvict? || a.SweepKeep? || a.SweepEnd?)
    ensures Places(Next(cfg, s, a).value, id) <= Places(s, id)
  {
    var s' := Next(cfg, s, a).value;
    match a
    case SweepBegin(now) => assert s'.sweeps[..|s.sweeps|] == s.sweeps;
    case SweepEvict(k) =>
      InSweepsUpdate(s.sweeps, k, s'.sweeps[k], id);
      InIdleHead(s.sweeps[k].toCheck, id);
    case SweepKeep(k) =>
      InSweepsUpdate(s.sweeps, k, s'.sweeps[k], id);
      InIdleHead(s.sweeps[k].toCheck, id);
      InIdleAppend(s.sweeps[k].survivors, [s.sweeps[k].toCheck[0]], id);
      InIdleOne(s.sweeps[k].toCheck[0], id);
    case SweepEnd(k) =>
      InSweepsUpdate(s.sweeps, k, s'.sweeps[k], id);
      InIdleAppend(s.inner.idle, s.sweeps[k].survivors, id);
    case _ =>
  }

  /** A step never puts a connection in more places than it was in, except for the one it opens. */
  lemma StepPlaces(cfg: Config, s: State, a: Action, id: nat)
    requires Next(cfg, s, a).Some?
    ensures var s' := Next(cfg, s, a).value;
            Places(s', id) <= Places(s, id) + if a.OpenOk? && id == |s.births| then 1 else 0
  {
    if a.SweepBegin? || a.SweepEvict? || a.SweepKeep? || a.SweepEnd? {
      SweepPlaces(cfg, s, a, id);
    } else {
      ClientPlaces(cfg, s, a, id);
    }
  }

  lemma StepOnePlace(cfg: Config, s: State, a: Action)
    requires OnePlace(s) && Next(cfg, s, a).Some?
    ensures OnePlace(Next(cfg, s, a).value)
  {
    var s' := Next(cfg, s, a).value;
    forall id: nat ensures Places(s', id) <= if id < |s'.births| then 1 else 0 {
      StepPlaces(cfg, s, a, id);
      assert Places(s, id) <= if id < |s.births| then 1 else 0;
    }
  }

  // ---- Creation times ----

  /** A connection carries the time it was opened at. */
  predicate Genuine(c: Conn, births: seq<int>) { c.id < |births| && c.createdAt == births[c.id] }

  ghost predicate GenuineIdle(es: seq<IdleConn>, births: seq<int>) {
    forall i :: 0 <= i < |es| ==> Genuine(es[i].conn, births) && es[i].createdAt == es[i].conn.createdAt
  }

  ghost predicate AllGenuine(s: State) {
    && GenuineIdle(s.inner.idle, s.births)
    && (forall c :: 0 <= c < |s.slots| && s.slots[c].Holding? ==> Genuine(s.slots[c].conn, s.births))
    && (forall k :: 0 <= k < |s.sweeps| ==>
          GenuineIdle(s.sweeps[k].toCheck, s.births) && GenuineIdle(s.sweeps[k].survivors, s.births))
  }

  lemma {:induction false} GenuineLater(es: seq<IdleConn>, births: seq<int>, births': seq<int>)
    requires GenuineIdle(es, births) && births <= births'
    ensures GenuineIdle(es, births')
  {
    assert forall i :: 0 <= i < |es| ==> Genuine(es[i].conn, births);
  }

  /** No step changes a creation time, and the recorded times only grow in number. */
  lemma StepGenuine(cfg: Config, s: State, a: Action)
    requires AllGenuine(s) && Next(cfg, s, a).Some?
    ensures AllGenuine(Next(cfg, s, a).value) && s.births <= Next(cfg, s, a).value.births
  {
    var s' := Next(cfg, s, a).value;
    GenuineLater(s.inner.idle, s.births, s'.births);
    assert GenuineIdle(s'.inner.idle, s'.births);
    forall k | 0 <= k < |s'.sweeps|
      ensures GenuineIdle(s'.sweeps[k].toCheck, s'.births) && GenuineIdle(s'.sweeps[k].survivors, s'.births)
    {
      if k < |s.sweeps| {
        GenuineLater(s.sweeps[k].toCheck, s.births, s'.births);
        GenuineLater(s.sweeps[k].survivors, s.births, s'.births);
      }
    }
  }

  // ---- Runs ----

  function Exec(cfg: Config, s: State, acts: seq<Action>): Option<State>
    decreases |acts|
  {
    if acts == [] then Some(s)
    else match Next(cfg, s, acts[0]) case None => None case Some(s') => Exec(cfg, s', acts[1..])
  }

  ghost predicate Inv(cfg: Config, s: State) { Counted(cfg, s) && OnePlace(s) && AllGenuine(s) }

  lemma {:induction false} ExecKeeps(cfg: Config, s: State, acts: seq<Action>)
    requires Inv(cfg, s) && Exec(cfg, s, acts).Some?
    ensures Inv(cfg, Exec(cfg, s, acts).value)
    decreases |acts|
  {
    if acts != [] {
      StepCounted(cfg, s, acts[0]);
      StepOnePlace(cfg, s, acts[0]);
      StepGenuine(cfg, s, acts[0]);
      ExecKeeps(cfg, Next(cfg, s, acts[0]).value, acts[1..]);
    }
  }

  /** Whatever the clients and sweeps do, in whatever order: the live count is exactly idle + checked
      out + reserved + in sweeps, it never exceeds the maximum size, no connection is in two places,
      and every connection still carries the time it was opened at. */
  lemma {:induction false} RunKeepsInvariant(cfg: Config, acts: seq<Action>)
    requires cfg.maxSize < U64 && Exec(cfg, START, acts).Some?
    ensures Inv(cfg, Exec(cfg, START, acts).value)
  {
    forall id: nat ensures Places(START, id) == 0 {}
    ExecKeeps(cfg, START, acts);
  }

  // ---- After close ----

  predicate Busy(x: Slot) { x.Holding? || x.Opening? }

  lemma ClosedHandsOutNothing(cfg: Config, s: State, a: Action, c: nat)
    requires s.inner.closed && Next(cfg, s, a).Some? && c < |Next(cfg, s, a).value.slots|
    requires Busy(Next(cfg, s, a).value.slots[c])
    ensures c < |s.slots| && Busy(s.slots[c])
  {
  }

  lemma ClosedStep(cfg: Config, s: State, a: Action)
    requires Inv(cfg, s) && s.inner.closed && Next(cfg, s, a).Some?
    ensures var s' := Next(cfg, s, a).value;
      && Inv(cfg, s') && s'.inner.closed && s'.inner.live <= s.inner.live
  {
    StepCounted(cfg, s, a);
    StepOnePlace(cfg, s, a);
    StepGenuine(cfg, s, a);
    SubtractionsExact(cfg, s, a);
  }

  /** Once closed, the pool stays closed, `live` never grows, and in the whole run no client gets a
      connection or a slot that had none when the pool was closed. */
  lemma {:induction false} ClosedForGood(cfg: Config, s: State, acts: seq<Action>)
    requires Inv(cfg, s) && s.inner.closed && Exec(cfg, s, acts).Some?
    ensures var s' := Exec(cfg, s, acts).value;
      && s'.inner.closed && s'.inner.live <= s.inner.live
      && forall c :: 0 <= c < |s'.slots| && Busy(s'.slots[c]) ==> c < |s.slots| && Busy(s.slots[c])
    decreases |acts|
  {
    if acts != [] {
      var a := acts[0];
      ClosedStep(cfg, s, a);
      var s1 := Next(cfg, s, a).value;
      ClosedForGood(cfg, s1, acts[1..]);
      forall c | 0 <= c < |s1.slots| && Busy(s1.slots[c]) ensures c < |s.slots| && Busy(s.slots[c]) {
        ClosedHandsOutNothing(cfg, s, a, c);
      }
    }
  }

  // ---- When nothing is live any more ----

  lemma {:induction false} NoneBusy(ss: seq<Slot>)
    ensures CheckedOut(ss) + Reserved(ss) == 0 <==> forall c :: 0 <= c < |ss| ==> !Busy(ss[c])
  {
    if ss != [] {
      var init := ss[..|ss| - 1];
      NoneBusy(init);
      assert forall c :: 0 <= c < |init| ==> init[c] == ss[c];
    }
  }

  lemma {:induction false} NoneSwept(ws: seq<SweepState>)
    ensures Swept(ws) == 0 <==> forall k :: 0 <= k < |ws| ==> SweepSize(ws[k]) == 0
  {
    if ws != [] {
      var init := ws[..|ws| - 1];
      NoneSwept(init);
      assert forall k :: 0 <= k < |init| ==> init[k] == ws[k];
    }
  }

  /** In every reachable state `live` is zero exactly when no connection is idle, no client has one or
      opens one, and no sweep holds one. */
  lemma LiveIsZeroIff(cfg: Config, s: State)
    requires Counted(cfg, s)
    ensures s.inner.live == 0 <==>
      && s.inner.idle == []
      && (forall c :: 0 <= c < |s.slots| ==> !Busy(s.slots[c]))
      && (forall k :: 0 <= k < |s.sweeps| ==> SweepSize(s.sweeps[k]) == 0)
  {
    NoneBusy(s.slots);
    NoneSwept(s.sweeps);
  }

  // ---- When close really drains ----

  /** The sweep will put something back if its pings are answered: it has a survivor, or a connection
      still to look at that is within the limits at the sweep's time. */
  ghost predicate MayReturn(cfg: Config, w: SweepState) {
    w.survivors != [] || exists i :: 0 <= i < |w.toCheck| && !Expired(cfg, w.toCheck[i], w.now)
  }

  ghost predicate NothingReturns(cfg: Config, ws: seq<SweepState>) {
    forall k :: 0 <= k < |ws| ==> !MayReturn(cfg, ws[k])
  }

  ghost predicate DrainedForGood(cfg: Config, s: State) {
    forall acts :: Exec(cfg, s, acts).Some? ==> Exec(cfg, s, acts).value.inner.idle == []
  }

  lemma StepStaysDrained(cfg: Config, s: State, a: Action)
    requires s.inner.closed && s.inner.idle == [] && NothingReturns(cfg, s.sweeps) && Next(cfg, s, a).Some?
    ensures var s' := Next(cfg, s, a).value;
      s'.inner.closed && s'.inner.idle == [] && NothingReturns(cfg, s'.sweeps)
  {
    var s' := Next(cfg, s, a).value;
    if a.SweepEvict? {
      var w := s.sweeps[a.s];
      assert !MayReturn(cfg, w);
      assert !MayReturn(cfg, w.(toCheck := w.toCheck[1..]));
    } else if a.SweepKeep? || a.SweepEnd? {
      assert !MayReturn(cfg, s.sweeps[a.s]);
    }
  }

  lemma {:induction false} RunStaysDrained(cfg: Config, s: State, acts: seq<Action>)
    requires s.inner.closed && s.inner.idle == [] && NothingReturns(cfg, s.sweeps) && Exec(cfg, s, acts).Some?
    ensures Exec(cfg, s, acts).value.inner.idle == []
    decreases |acts|
  {
    if acts != [] {
      StepStaysDrained(cfg, s, acts[0]);
      RunStaysDrained(cfg, Next(cfg, s, acts[0]).value, acts[1..]);
    }
  }

  /** The run that lets the sweep keep whatever it may keep, and end. */
  lemma {:induction false} SweepReturns(cfg: Config, s: State, k: nat) returns (acts: seq<Action>)
    requires k < |s.sweeps| && MayReturn(cfg, s.sweeps[k])
    ensures Exec(cfg, s, acts).Some? && Exec(cfg, s, acts).value.inner.idle != []
    decreases |s.sweeps[k].toCheck|
  {
    var w := s.sweeps[k];
    if w.toCheck == [] {
      acts := [SweepEnd(k)];
      assert acts[1..] == [];
      assert Exec(cfg, s, acts) == Exec(cfg, Next(cfg, s, SweepEnd(k)).value, []);
    } else {
      var e, later := w.toCheck[0], w.toCheck[1..];
      var a := if Expired(cfg, e, w.now) then SweepEvict(k) else SweepKeep(k);
      var s1 := Next(cfg, s, a).value;
      if Expired(cfg, e, w.now) && w.survivors == [] {
        var i :| 0 <= i < |w.toCheck| && !Expired(cfg, w.toCheck[i], w.now);
        assert later[i - 1] == w.toCheck[i];
      }
      assert MayReturn(cfg, s1.sweeps[k]);
      var rest := SweepReturns(cfg, s1, k);
      acts := [a] + rest;
      assert acts[1..] == rest;
    }
  }

  /** `close` drains the pool for good exactly when no sweep under way holds a survivor or a connection
      that is within the limits: otherwise some run fills the closed pool again. */
  lemma {:induction false} CloseDrainsForGoodIff(cfg: Config, s: State)
    ensures DrainedForGood(cfg, Next(cfg, s, ClosePool).value) <==> NothingReturns(cfg, s.sweeps)
  {
    var s' := Next(cfg, s, ClosePool).value;
    if NothingReturns(cfg, s.sweeps) {
      forall acts | Exec(cfg, s', acts).Some? ensures Exec(cfg, s', acts).value.inner.idle == [] {
        RunStaysDrained(cfg, s', acts);
      }
    } else {
      var k :| 0 <= k < |s.sweeps| && MayReturn(cfg, s.sweeps[k]);
      var acts := SweepReturns(cfg, s', k);
      assert !DrainedForGood(cfg, s');
    }
  }

  /** On a closed pool a step takes connections off the idle list exactly when there are some and it is
      another `close` or the begin of another sweep. */
  lemma IdleLeavesIff(cfg: Config, s: State, a: Action)
    requires s.inner.closed && Next(cfg, s, a).Some?
    ensures s.inner.idle <= Next(cfg, s, a).value.inner.idle <==>
      s.inner.idle == [] || !(a.ClosePool? || a.SweepBegin?)
  {
  }

  /** In a closed pool idle connections stay where they are unless `close` is called again or another
      sweep begins: so they keep `live` above zero. */
  lemma {:induction false} IdleAfterCloseStays(cfg: Config, s: State, acts: seq<Action>)
    requires Inv(cfg, s) && s.inner.closed && Exec(cfg, s, acts).Some?
    requires forall i :: 0 <= i < |acts| ==> !acts[i].ClosePool? && !acts[i].SweepBegin?
    ensures var s' := Exec(cfg, s, acts).value; s.inner.idle <= s'.inner.idle && |s.inner.idle| <= s'.inner.live
    decreases |acts|
  {
    if acts != [] {
      var a := acts[0];
      assert !a.ClosePool? && !a.SweepBegin?;
      StepCounted(cfg, s, a);
      StepOnePlace(cfg, s, a);
      StepGenuine(cfg, s, a);
      var s1 := Next(cfg, s, a).value;
      assert s.inner.idle <= s1.inner.idle;
      IdleAfterCloseStays(cfg, s1, acts[1..]);
    }
  }

  /** One connection in the idle list of a closed or open pool. */
  function OneIdle(e: IdleConn, closed: bool, sweeps: seq<SweepState>, now: int): State {
    State(Inner([e], 1, closed), [Done], sweeps, [now], map[0 := now])
  }

  lemma FillPool(cfg: Config, now: int)
    requires 1 <= cfg.maxSize
    ensures Exec(cfg, START, [Arrive, Acquire(0, now), OpenOk(0, now), ReleaseBy(0, now)]) ==
            Some(OneIdle(IdleConn(Conn(0, now), now, now), false, [], now))
  {
    var e, held := IdleConn(Conn(0, now), now, now), Holding(Conn(0, now));
    var s1 := State(Inner([], 0, false), [Trying], [], [], map[]);
    var s2 := State(Inner([], 1, false), [Opening], [], [], map[]);
    var s3 := State(Inner([], 1, false), [held], [], [now], map[]);
    assert START.slots + [Trying] == [Trying] && [Trying][0 := Opening] == [Opening] && [Opening][0 := held] == [held];
    assert [held][0 := Done] == [Done] && START.births + [now] == [now] && START.inner.idle + [e] == [e];
    assert Next(cfg, START, Arrive) == Some(s1);
    assert Next(cfg, s1, Acquire(0, now)) == Some(s2);
    assert Next(cfg, s2, OpenOk(0, now)) == Some(s3);
    assert Next(cfg, s3, ReleaseBy(0, now)) == Some(OneIdle(e, false, [], now));
    ExecFour(cfg, START, s1, s2, s3, OneIdle(e, false, [], now),
             Arrive, Acquire(0, now), OpenOk(0, now), ReleaseBy(0, now));
  }

  lemma ExecFour(cfg: Config, s0: State, s1: State, s2: State, s3: State, s4: State,
                 a: Action, b: Action, c: Action, d: Action)
    requires Next(cfg, s0, a) == Some(s1) && Next(cfg, s1, b) == Some(s2)
    requires Next(cfg, s2, c) == Some(s3) && Next(cfg, s3, d) == Some(s4)
    ensures Exec(cfg, s0, [a, b, c, d]) == Some(s4)
  {
    assert [a, b, c, d][1..] == [b, c, d] && [b, c, d][1..] == [c, d] && [c, d][1..] == [d] && [d][1..] == [];
    assert Exec(cfg, s3, [d]) == Some(s4);
    assert Exec(cfg, s2, [c, d]) == Exec(cfg, s3, [d]);
    assert Exec(cfg, s1, [b, c, d]) == Exec(cfg, s2, [c, d]);
  }

  lemma CloseDuringSweep(cfg: Config, e: IdleConn, now: int)
    requires !Expired(cfg, e, now)
    ensures Exec(cfg, OneIdle(e, false, [], now), [SweepBegin(now), ClosePool, SweepKeep(0), SweepEnd(0)]) ==
            Some(OneIdle(e, true, [SweepState([], [], now)], now))
  {
    var w1, w2, w3 := SweepState([e], [], now), SweepState([], [e], now), SweepState([], [], now);
    var s4, s8 := OneIdle(e, false, [], now), OneIdle(e, true, [w3], now);
    var s5 := State(Inner([], 1, false), [Done], [w1], [now], map[0 := now]);
    var s6 := State(Inner([], 1, true), [Done], [w1], [now], map[0 := now]);
    var s7 := State(Inner([], 1, true), [Done], [w2], [now], map[0 := now]);
    assert Next(cfg, s4, SweepBegin(now)) == Some(s5) by { assert s4.sweeps + [w1] == [w1]; }
    assert Next(cfg, s5, ClosePool) == Some(s6);
    assert Next(cfg, s6, SweepKeep(0)) == Some(s7) by { SweepKeepsOne(cfg, s6, w1, e, now); }
    assert Next(cfg, s7, SweepEnd(0)) == Some(s8) by { assert [w2][0 := w3] == [w3] && s7.inner.idle + [e] == [e]; }
    ExecFour(cfg, s4, s5, s6, s7, s8, SweepBegin(now), ClosePool, SweepKeep(0), SweepEnd(0));
  }

  lemma SweepKeepsOne(cfg: Config, s: State, w: SweepState, e: IdleConn, now: int)
    requires w == SweepState([e], [], now) && s.sweeps == [w] && !Expired(cfg, e, now)
    ensures Next(cfg, s, SweepKeep(0)) == Some(s.(sweeps := [SweepState([], [e], now)]))
  {
    var w' := w.(toCheck := w.toCheck[1..], survivors := w.survivors + [e]);
    assert w.toCheck[1..] == [] && w.survivors + [e] == [e];
    assert w' == SweepState([], [e], now) && [w][0 := w'] == [w'];
  }

  lemma {:induction false} ExecAppend(cfg: Config, s: State, a: seq<Action>, b: seq<Action>)
    requires Exec(cfg, s, a).Some?
    ensures Exec(cfg, s, a + b) == Exec(cfg, Exec(cfg, s, a).value, b)
    decreases |a|
  {
    if a == [] {
      assert a + b == b;
    } else {
      assert (a + b)[1..] == a[1..] + b;
      ExecAppend(cfg, Next(cfg, s, a[0]).value, a[1..], b);
    }
  }

  /** It happens: a sweep that began before `close` puts its survivor back into the closed pool. */
  lemma SweepOutlivesClose(cfg: Config, now: int) returns (acts: seq<Action>)
    requires 1 <= cfg.maxSize && 0 <= cfg.maxLifetime && 0 <= cfg.idleTimeout
    ensures Exec(cfg, START, acts).Some?
    ensures var s := Exec(cfg, START, acts).value;
      && s.inner.closed && |s.inner.idle| == 1 && s.inner.live == 1
      && (forall c :: 0 <= c < |s.slots| ==> !Busy(s.slots[c]))
      && (forall k :: 0 <= k < |s.sweeps| ==> SweepSize(s.sweeps[k]) == 0)
  {
    var fill := [Arrive, Acquire(0, now), OpenOk(0, now), ReleaseBy(0, now)];
    var close := [SweepBegin(now), ClosePool, SweepKeep(0), SweepEnd(0)];
    FillPool(cfg, now);
    CloseDuringSweep(cfg, IdleConn(Conn(0, now), now, now), now);
    ExecAppend(cfg, START, fill, close);
    acts := fill + close;
  }
}
