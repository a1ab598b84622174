/**
  The pool's two time limits, counted from what really happened: a connection was opened at one time
  and last released at another, and that decides whether it is handed out again.
 */
module PoolClock {
  import opened Words
  import opened Pool
  import opened PoolProtocol

  // ---- A connection in use is nowhere else ----

  lemma {:induction false} NotInIdle(es: seq<IdleConn>, id: nat)
    requires InIdle(es, id) == 0
    ensures forall i :: 0 <= i < |es| ==> es[i].conn.id != id
  {
    if es != [] { NotInIdle(es[..|es| - 1], id); }
  }

  lemma {:induction false} InSlotsHas(ss: seq<Slot>, c: nat, id: nat)
    requires c < |ss|
    ensures InSlots(ss, id) >= InSlot(ss[c], id)
  {
    if c < |ss| - 1 { InSlotsHas(ss[..|ss| - 1], c, id); }
  }

  lemma {:induction false} InSweepsHas(ws: seq<SweepState>, k: nat, id: nat)
    requires k < |ws|
    ensures InSweeps(ws, id) >= InSweep(ws[k], id)
  {
    if k < |ws| - 1 { InSweepsHas(ws[..|ws| - 1], k, id); }
  }

  ghost predicate Without(es: seq<IdleConn>, id: nat) { forall i :: 0 <= i < |es| ==> es[i].conn.id != id }

  lemma HeldIsNowhereElse(s: State, c: nat)
    requires OnePlace(s) && c < |s.slots| && s.slots[c].Holding?
    ensures var id := s.slots[c].conn.id;
      && Without(s.inner.idle, id)
      && forall k :: 0 <= k < |s.sweeps| ==> Without(s.sweeps[k].toCheck, id) && Without(s.sweeps[k].survivors, id)
  {
    var id := s.slots[c].conn.id;
    assert Places(s, id) <= 1;
    InSlotsHas(s.slots, c, id);
    NotInIdle(s.inner.idle, id);
    forall k | 0 <= k < |s.sweeps| ensures Without(s.sweeps[k].toCheck, id) && Without(s.sweeps[k].survivors, id) {
      InSweepsHas(s.sweeps, k, id);
      NotInIdle(s.sweeps[k].toCheck, id);
      NotInIdle(s.sweeps[k].survivors, id);
    }
  }

  // ---- Idle since the last release ----

  ghost predicate Stamped(es: seq<IdleConn>, releases: map<nat, int>) {
    forall i :: 0 <= i < |es| ==> es[i].conn.id in releases && es[i].idleSince == releases[es[i].conn.id]
  }

  /** Every connection that is idle, or in a sweep, says when it was last released. */
  ghost predicate AllStamped(s: State) {
    && Stamped(s.inner.idle, s.releases)
    && forall k :: 0 <= k < |s.sweeps| ==>
         Stamped(s.sweeps[k].toCheck, s.releases) && Stamped(s.sweeps[k].survivors, s.releases)
  }

  lemma ReleaseStamped(cfg: Config, s: State, c: nat, now: int)
    requires OnePlace(s) && AllStamped(s) && c < |s.slots| && s.slots[c].Holding?
    ensures AllStamped(Next(cfg, s, ReleaseBy(c, now)).value)
  {
    HeldIsNowhereElse(s, c);
  }

  lemma StepStamped(cfg: Config, s: State, a: Action)
    requires OnePlace(s) && AllStamped(s) && Next(cfg, s, a).Some?
    ensures AllStamped(Next(cfg, s, a).value)
  {
    if a.ReleaseBy? { ReleaseStamped(cfg, s, a.c, a.now); }
  }

  lemma {:induction false} ExecStamped(cfg: Config, s: State, acts: seq<Action>)
    requires Inv(cfg, s) && AllStamped(s) && Exec(cfg, s, acts).Some?
    ensures Inv(cfg, Exec(cfg, s, acts).value) && AllStamped(Exec(cfg, s, acts).value)
    decreases |acts|
  {
    if acts != [] {
      StepCounted(cfg, s, acts[0]);
      StepOnePlace(cfg, s, acts[0]);
      StepGenuine(cfg, s, acts[0]);
      StepStamped(cfg, s, acts[0]);
      ExecStamped(cfg, Next(cfg, s, acts[0]).value, acts[1..]);
    }
  }

  lemma RunIsStamped(cfg: Config, acts: seq<Action>)
    requires cfg.maxSize < U64 && Exec(cfg, START, acts).Some?
    ensures Inv(cfg, Exec(cfg, START, acts).value) && AllStamped(Exec(cfg, START, acts).value)
  {
    forall id: nat ensures Places(START, id) == 0 {}
    ExecStamped(cfg, START, acts);
  }

  /** Within both limits, by the times at which the connection was opened and last released. */
  ghost predicate WithinLimits(cfg: Config, s: State, id: nat, now: int) {
    && id < |s.births| && now - s.births[id] <= cfg.maxLifetime
    && id in s.releases && now - s.releases[id] <= cfg.idleTimeout
  }

  /** In every run, on an open pool with idle connections: the one that was put there last is handed out
      exactly when it is within both limits; otherwise it is dropped and the client tries again. */
  lemma CheckoutIff(cfg: Config, acts: seq<Action>, c: nat, now: int)
    requires cfg.maxSize < U64 && Exec(cfg, START, acts).Some?
    requires var s := Exec(cfg, START, acts).value;
      c < |s.slots| && s.slots[c].Trying? && !s.inner.closed && s.inner.idle != []
    ensures var s := Exec(cfg, START, acts).value;
      var conn, after := s.inner.idle[|s.inner.idle| - 1].conn, Next(cfg, s, Acquire(c, now));
      && after.Some? && after.value.inner.idle == s.inner.idle[..|s.inner.idle| - 1]
      && after.value.slots[c] == if WithinLimits(cfg, s, conn.id, now) then Holding(conn) else Trying
  {
    RunIsStamped(cfg, acts);
    var s := Exec(cfg, START, acts).value;
    var e := s.inner.idle[|s.inner.idle| - 1];
    assert Genuine(e.conn, s.births) && e.createdAt == e.conn.createdAt;
  }

  /** And no client gets a connection in any other way than by opening it: a connection handed out from
      the idle list is within both limits. */
  lemma CheckoutIsFresh(cfg: Config, acts: seq<Action>, c: nat, now: int)
    requires cfg.maxSize < U64 && Exec(cfg, START, acts).Some?
    ensures var s := Exec(cfg, START, acts).value;
      var s' := Next(cfg, s, Acquire(c, now));
      s'.Some? && s'.value.slots[c].Holding? ==>
        var conn := s'.value.slots[c].conn;
        s.inner.idle != [] && conn == s.inner.idle[|s.inner.idle| - 1].conn && WithinLimits(cfg, s, conn.id, now)
  {
    var s := Exec(cfg, START, acts).value;
    if c < |s.slots| && s.slots[c].Trying? && !s.inner.closed && s.inner.idle != [] { CheckoutIff(cfg, acts, c, now); }
  }

  /** A sweep may keep the connection it looks at exactly when that is within both limits at the sweep's
      time; whether it does is up to the ping. */
  lemma SweepKeepsIff(cfg: Config, acts: seq<Action>, k: nat)
    requires cfg.maxSize < U64 && Exec(cfg, START, acts).Some?
    requires var s := Exec(cfg, START, acts).value; k < |s.sweeps| && s.sweeps[k].toCheck != []
    ensures var s := Exec(cfg, START, acts).value;
      && Next(cfg, s, SweepEvict(k)).Some?
      && (Next(cfg, s, SweepKeep(k)).Some? <==>
          WithinLimits(cfg, s, s.sweeps[k].toCheck[0].conn.id, s.sweeps[k].now))
  {
    RunIsStamped(cfg, acts);
    var s := Exec(cfg, START, acts).value;
    var e := s.sweeps[k].toCheck[0];
    assert GenuineIdle(s.sweeps[k].toCheck, s.births) && Stamped(s.sweeps[k].toCheck, s.releases);
    assert Genuine(e.conn, s.births) && e.createdAt == e.conn.createdAt;
  }

  /** The connection released last is the next one handed out: released into an open pool at one time and
      asked for at another, it comes back exactly when it is within both limits. */
  lemma LastReleasedFirst(cfg: Config, acts: seq<Action>, c: nat, released: int, d: nat, now: int)
    requires cfg.maxSize < U64 && Exec(cfg, START, acts).Some?
    requires var s := Exec(cfg, START, acts).value;
      && c < |s.slots| && s.slots[c].Holding? && !s.inner.closed
      && d < |s.slots| && s.slots[d].Trying?
    ensures var s := Exec(cfg, START, acts).value;
      var conn, s1 := s.slots[c].conn, Next(cfg, s, ReleaseBy(c, released)).value;
      var s2 := Next(cfg, s1, Acquire(d, now)).value;
      && conn.id < |s.births|
      && s2.slots[d] == (if now - s.births[conn.id] <= cfg.maxLifetime && now - released <= cfg.idleTimeout
                         then Holding(conn) else Trying)
  {
    var s := Exec(cfg, START, acts).value;
    RunIsStamped(cfg, acts);
    SubtractionsExact(cfg, s, ReleaseBy(c, released));
    assert Genuine(s.slots[c].conn, s.births);
  }
}
