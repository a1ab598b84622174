/**
  The connection pool: what each locked section does to the pool's state, as a class and as
  functions of the state before.
 */
module Pool {
  import opened Words

  /** A connection; `createdAt` is set when it is opened. */
  datatype Conn = Conn(id: nat, createdAt: int)

  datatype IdleConn = IdleConn(conn: Conn, createdAt: int, idleSince: int)

  datatype Config = Config(maxSize: nat, maxLifetime: int, idleTimeout: int)

  /** `PoolInner`, without the wakers. */
  datatype Inner = Inner(idle: seq<IdleConn>, live: nat, closed: bool)

  function SaturatingSub(a: nat, b: nat): nat { if a < b then 0 else a - b }

  /** `a -= 1` on a `usize`, wrapping at zero. */
  function WrappingDec(a: nat): nat { (a + U64 - 1) % U64 }

  datatype Outcome = PoolClosed | Evicted | Got(conn: Conn) | SlotReserved | Exhausted

  predicate Expired(cfg: Config, e: IdleConn, now: int) {
    now - e.createdAt > cfg.maxLifetime || now - e.idleSince > cfg.idleTimeout
  }

  /** One turn of the loop in `acquire`, under the lock. */
  function TryAcquire(cfg: Config, g: Inner, now: int): (Inner, Outcome) {
    if g.closed then (g, PoolClosed)
    else if g.idle != [] then
      var e := g.idle[|g.idle| - 1];
      var g' := g.(idle := g.idle[..|g.idle| - 1]);
      if Expired(cfg, e, now) then (g'.(live := SaturatingSub(g.live, 1)), Evicted) else (g', Got(e.conn))
    else if g.live < cfg.maxSize then (g.(live := g.live + 1), SlotReserved)
    else (g, Exhausted)
  }

  /** Turns until one does not merely evict; turn `k` reads the clock for itself. */
  function AcquireSettled(cfg: Config, g: Inner, clock: nat -> int, k: nat): (Inner, Outcome)
    decreases |g.idle|
  {
    var (g', o) := TryAcquire(cfg, g, clock(k));
    if o.Evicted? then AcquireSettled(cfg, g', clock, k + 1) else (g', o)
  }

  /** Connections that are expired when they are looked at are dropped from the back until one is fit,
      or none is left. */
  lemma {:induction false} SettledDropsExpired(cfg: Config, g: Inner, clock: nat -> int, k: nat)
    requires !g.closed
    ensures var fit := FreshPart(cfg, g.idle, clock, k);
            var left := SaturatingSub(g.live, |g.idle| - |fit|);
            AcquireSettled(cfg, g, clock, k) ==
            if fit != [] then (Inner(fit[..|fit| - 1], left, false), Got(fit[|fit| - 1].conn))
            else if left < cfg.maxSize then (Inner([], left + 1, false), SlotReserved)
            else (Inner([], left, false), Exhausted)
    decreases |g.idle|
  {
    if g.idle != [] && Expired(cfg, g.idle[|g.idle| - 1], clock(k)) {
      var init := g.idle[..|g.idle| - 1];
      var g' := Inner(init, SaturatingSub(g.live, 1), false);
      assert TryAcquire(cfg, g, clock(k)) == (g', Evicted);
      SettledDropsExpired(cfg, g', clock, k + 1);
      assert FreshPart(cfg, g.idle, clock, k) == FreshPart(cfg, init, clock, k + 1);
    } else {
      assert FreshPart(cfg, g.idle, clock, k) == g.idle;
    }
  }

  /** The slot given back when opening a connection fails. */
  function OpenFailed(g: Inner): Inner { g.(live := WrappingDec(g.live)) }

  function Release(cfg: Config, g: Inner, c: Conn, now: int): Inner {
    if g.closed || |g.idle| >= cfg.maxSize then g.(live := SaturatingSub(g.live, 1))
    else g.(idle := g.idle + [IdleConn(c, c.createdAt, now)])
  }

  function Close(g: Inner): Inner { Inner([], SaturatingSub(g.live, |g.idle|), true) }

  /** The health sweep: take all idle connections, drop one, put the survivors back. */
  function TakeIdle(g: Inner): Inner { g.(idle := []) }
  function DropOne(g: Inner): Inner { g.(live := SaturatingSub(g.live, 1)) }
  function PutBack(g: Inner, es: seq<IdleConn>): Inner { g.(idle := g.idle + es) }

  class PoolInner {
    const cfg: Config
    var idle: seq<IdleConn>
    var live: nat
    var closed: bool

    ghost function View(): Inner
      reads this
    {
      Inner(idle, live, closed)
    }

    constructor (c: Config)
      ensures cfg == c && View() == Inner([], 0, false)
    {
      cfg, idle, live, closed := c, [], 0, false;
    }

    method AcquireTurn(now: int) returns (o: Outcome)
      modifies this
      ensures (View(), o) == TryAcquire(cfg, old(View()), now)
    {
      if closed { return PoolClosed; }
      if idle != [] {
        var e := idle[|idle| - 1];
        idle := idle[..|idle| - 1];
        if now - e.createdAt > cfg.maxLifetime {
          live := SaturatingSub(live, 1);
          return Evicted;
        }
        if now - e.idleSince > cfg.idleTimeout {
          live := SaturatingSub(live, 1);
          return Evicted;
        }
        return Got(e.conn);
      } else if live < cfg.maxSize {
        live := live + 1;
        return SlotReserved;
      }
      return Exhausted;
    }

    /** The loop of `acquire` as one client runs it undisturbed. */
    method AcquireUndisturbed(clock: nat -> int) returns (o: Outcome)
      modifies this
      ensures (View(), o) == AcquireSettled(cfg, old(View()), clock, 0)
    {
      o := AcquireTurn(clock(0));
      var k := 1;
      while o.Evicted?
        invariant AcquireSettled(cfg, old(View()), clock, 0) ==
                  if o.Evicted? then AcquireSettled(cfg, View(), clock, k) else (View(), o)
        decreases if o.Evicted? then 1 + |idle| else 0
      {
        o := AcquireTurn(clock(k));
        k := k + 1;
      }
    }

    method GiveSlotBack()
      modifies this
      ensures View() == OpenFailed(old(View()))
    {
      live := WrappingDec(live);
    }

    method ReleaseConn(c: Conn, now: int)
      modifies this
      ensures View() == Release(cfg, old(View()), c, now)
    {
      if closed || |idle| >= cfg.maxSize {
        live := SaturatingSub(live, 1);
        return;
      }
      idle := idle + [IdleConn(c, c.createdAt, now)];
    }

    method ClosePool() returns (drained: seq<IdleConn>)
      modifies this
      ensures View() == Close(old(View())) && drained == old(idle)
    {
      closed := true;
      var idleCount := |idle|;
      drained := idle;
      idle := [];
      live := SaturatingSub(live, idleCount);
    }

    /** One undisturbed health sweep; `alive` says which connections answer the ping. */
    method Sweep(now: int, alive: nat -> bool) returns (survivors: seq<IdleConn>)
      modifies this
      ensures survivors == Survivors(cfg, old(idle), now, alive)
      ensures View() == PutBack(Inner([], SaturatingSub(old(live), |old(idle)| - |survivors|), old(closed)), survivors)
    {
      var toCheck := idle;
      idle := [];
      survivors := [];
      for i := 0 to |toCheck|
        invariant idle == [] && closed == old(closed)
        invariant survivors == Survivors(cfg, toCheck[..i], now, alive)
        invariant |survivors| <= i && live == SaturatingSub(old(live), i - |survivors|)
      {
        assert toCheck[..i + 1][..i] == toCheck[..i];
        if Expired(cfg, toCheck[i], now) {
          live := SaturatingSub(live, 1);
        } else if alive(toCheck[i].conn.id) {
          survivors := survivors + [toCheck[i]];
        } else {
          live := SaturatingSub(live, 1);
        }
      }
      assert toCheck[..|toCheck|] == toCheck;
      for i := 0 to |survivors|
        invariant idle == survivors[..i] && closed == old(closed)
        invariant live == SaturatingSub(old(live), |toCheck| - |survivors|)
      {
        idle := idle + [survivors[i]];
      }
    }
  }

  /** The idle list without the connections at its end that are expired when their turn, counted from
      `k`, comes. */
  function FreshPart(cfg: Config, es: seq<IdleConn>, clock: nat -> int, k: nat): (r: seq<IdleConn>)
    ensures r <= es
    decreases |es|
  {
    if es != [] && Expired(cfg, es[|es| - 1], clock(k)) then FreshPart(cfg, es[..|es| - 1], clock, k + 1) else es
  }

  /** It ends in a connection that is fit when it is looked at, and everything behind it is expired. */
  lemma {:induction false} FreshPartIs(cfg: Config, es: seq<IdleConn>, clock: nat -> int, k: nat)
    ensures var r := FreshPart(cfg, es, clock, k);
      && (r != [] ==> !Expired(cfg, r[|r| - 1], clock(k + |es| - |r|)))
      && forall i :: |r| <= i < |es| ==> Expired(cfg, es[i], clock(k + |es| - 1 - i))
    decreases |es|
  {
    if es != [] && Expired(cfg, es[|es| - 1], clock(k)) {
      var init, r := es[..|es| - 1], FreshPart(cfg, es, clock, k);
      FreshPartIs(cfg, init, clock, k + 1);
      forall i | |r| <= i < |es| ensures Expired(cfg, es[i], clock(k + |es| - 1 - i)) {
        if i < |init| { assert init[i] == es[i] && Expired(cfg, init[i], clock(k + 1 + |init| - 1 - i)); }
      }
    }
  }

  /** The connections a sweep keeps: neither stale nor dead, in their order. */
  function Survivors(cfg: Config, es: seq<IdleConn>, now: int, alive: nat -> bool): (r: seq<IdleConn>)
    ensures |r| <= |es|
  {
    if es == [] then []
    else
      var e := es[|es| - 1];
      Survivors(cfg, es[..|es| - 1], now, alive) + (if !Expired(cfg, e, now) && alive(e.conn.id) then [e] else [])
  }

  /** A sweep keeps exactly the connections that are within both limits at its time and answer the ping,
      each as often as it was there, and in the order they were in. */
  lemma {:induction false} SurvivorsIff(cfg: Config, es: seq<IdleConn>, now: int, alive: nat -> bool)
    returns (at: seq<nat>)
    ensures var r := Survivors(cfg, es, now, alive);
      && |at| == |r| && (forall i :: 0 <= i < |at| ==> at[i] < |es| && r[i] == es[at[i]])
      && (forall i, j :: 0 <= i < j < |at| ==> at[i] < at[j])
      && forall k :: 0 <= k < |es| ==>
           (k in at <==> now - es[k].createdAt <= cfg.maxLifetime && now - es[k].idleSince <= cfg.idleTimeout
                         && alive(es[k].conn.id))
  {
    at := [];
    if es != [] {
      var init, e := es[..|es| - 1], es[|es| - 1];
      var before := SurvivorsIff(cfg, init, now, alive);
      at := before + (if !Expired(cfg, e, now) && alive(e.conn.id) then [|es| - 1] else []);
      forall k | 0 <= k < |es| ensures k in at <==> !Expired(cfg, es[k], now) && alive(es[k].conn.id) {
        if k < |init| { assert init[k] == es[k]; }
      }
    }
  }
}
