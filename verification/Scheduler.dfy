/**
  The runtime's task queues: a ring buffer with wrapping 64-bit indices, and a shared queue.
 */
module Scheduler {
  import opened Prelude
  import opened Words

  /** A task header, by identity. */
  type Header = nat

  const CAPACITY := 256

  /** The slot of the `i`-th item behind `head`. */
  function SlotOf(head: nat, i: nat): (k: nat)
    ensures k < CAPACITY
  {
    (head + i) % CAPACITY
  }

  /** 256 divides 2^64, so wrapping an index does not move its slot. */
  lemma WrapKeepsSlot(x: nat)
    ensures (x % U64) % CAPACITY == x % CAPACITY
  {
    var q := x / U64;
    assert x == q * U64 + x % U64;
    assert U64 == CAPACITY * 0x100_0000_0000_0000;
    assert x == CAPACITY * (q * 0x100_0000_0000_0000) + x % U64;
    ModShift(x % U64, q * 0x100_0000_0000_0000);
  }

  lemma ModShift(r: nat, m: nat)
    ensures (CAPACITY * m + r) % CAPACITY == r % CAPACITY
  {
    assert CAPACITY * m + r == CAPACITY * (m + r / CAPACITY) + r % CAPACITY;
  }

  /** Different offsets below the capacity are different slots. */
  lemma SlotsDiffer(head: nat, i: nat, j: nat)
    requires i < j < i + CAPACITY
    ensures SlotOf(head, i) != SlotOf(head, j)
  {
  }

  class LocalQueue {
    const buf: array<Option<Header>>
    var head: nat
    var tail: nat

    ghost predicate Indices()
      reads this
    {
      buf.Length == CAPACITY && head < U64 && tail < U64 && WrappingSub(tail, head) <= CAPACITY
    }

    /** Exactly the slots from `head` up to `tail` are full. */
    ghost predicate Valid()
      reads this, buf
    {
      && Indices()
      && (forall i :: 0 <= i < WrappingSub(tail, head) ==> buf[SlotOf(head, i)].Some?)
      && (forall i :: WrappingSub(tail, head) <= i < CAPACITY ==> buf[SlotOf(head, i)].None?)
    }

    /** The items from front to back. */
    ghost function Contents(): (s: seq<Header>)
      requires Valid()
      reads this, buf
      ensures |s| == WrappingSub(tail, head)
    {
      seq(WrappingSub(tail, head),
          i requires Valid() && 0 <= i < WrappingSub(tail, head) reads this, buf => buf[SlotOf(head, i)].value)
    }

    constructor ()
      ensures Valid() && Contents() == [] && fresh(buf)
    {
      buf := new Option<Header>[CAPACITY](_ => None);
      head, tail := 0, 0;
    }

    method Len() returns (n: nat)
      requires Valid()
      ensures n == |Contents()|
    {
      n := WrappingSub(tail, head);
    }

    /** Pushes at the back, or hands the item back when full. */
    method Push(h: Header) returns (overflow: Option<Header>)
      requires Valid()
      modifies this`tail, buf
      ensures Valid()
      ensures |old(Contents())| == CAPACITY ==> overflow == Some(h) && Contents() == old(Contents())
      ensures |old(Contents())| < CAPACITY ==> overflow == None && Contents() == old(Contents()) + [h]
    {
      ghost var n := WrappingSub(tail, head);
      if WrappingSub(tail, head) == CAPACITY { return Some(h); }
      TailSlot(head, tail, n);
      NextTail(head, tail, n);
      var idx := tail % CAPACITY;
      forall i | 0 <= i < CAPACITY && i != n ensures SlotOf(head, i) != idx {
        if i < n { SlotsDiffer(head, i, n); } else { SlotsDiffer(head, n, i); }
      }
      buf[idx] := Some(h);
      tail := WrappingAdd(tail, 1);
      return None;
    }

    /** Takes the most recently pushed item. */
    method Pop() returns (r: Option<Header>)
      requires Valid()
      modifies this`tail, buf
      ensures Valid()
      ensures old(Contents()) == [] ==> r == None && Contents() == []
      ensures old(Contents()) != [] ==>
        r == Some(old(Contents())[|old(Contents())| - 1]) && Contents() == old(Contents())[..|old(Contents())| - 1]
    {
      ghost var n := WrappingSub(tail, head);
      if WrappingSub(tail, head) == 0 { return None; }
      PrevTail(head, tail, n);
      tail := WrappingSub(tail, 1);
      TailSlot(head, tail, n - 1);
      var idx := tail % CAPACITY;
      forall i | 0 <= i < CAPACITY && i != n - 1 ensures SlotOf(head, i) != idx {
        if i < n - 1 { SlotsDiffer(head, i, n - 1); } else { SlotsDiffer(head, n - 1, i); }
      }
      r := buf[idx];
      buf[idx] := None;
    }

    /** Takes the item at the front. */
    method TakeFront() returns (h: Header)
      requires Valid() && Contents() != []
      modifies this`head, buf
      ensures Valid() && h == old(Contents())[0] && Contents() == old(Contents())[1..]
    {
      ghost var n := WrappingSub(tail, head);
      ghost var head0 := head;
      var idx := head % CAPACITY;
      assert idx == SlotOf(head, 0);
      forall i | 1 <= i < CAPACITY ensures SlotOf(head, i) != idx { SlotsDiffer(head, 0, i); }
      h := buf[idx].value;
      buf[idx] := None;
      head := WrappingAdd(head, 1);
      NextHead(head0, tail, n);
      forall i | 0 <= i < CAPACITY ensures SlotOf(head, i) == SlotOf(head0, i + 1) { HeadSlot(head0, i); }
      assert SlotOf(head, CAPACITY - 1) == idx by { HeadSlot(head0, CAPACITY - 1); }
      assert Valid();
    }

    /** Moves up to `count` items from the front, in order, to the end of `dest`. */
    method DrainFront(dest: seq<Header>, count: nat) returns (dest': seq<Header>)
      requires Valid()
      modifies this`head, buf
      ensures Valid()
      ensures var k := if count < |old(Contents())| then count else |old(Contents())|;
              dest' == dest + old(Contents())[..k] && Contents() == old(Contents())[k..]
    {
      dest' := dest;
      var len := Len();
      var toTake := if count < len then count else len;
      ghost var all := Contents();
      for i := 0 to toTake
        invariant Valid() && Contents() == all[i..] && dest' == dest + all[..i]
      {
        var item := TakeFront();
        dest' := dest' + [item];
      }
    }
  }

  /** How many items a thief wants: half of them, but at least one if there is one. */
  function BatchSize(len: nat): nat {
    var half := if len / 2 < 1 then 1 else len / 2;
    if half < len then half else len
  }

  /** What a steal leaves in the shared queue and adds to the local one. When the local queue is too
      full, the item popped last fits nowhere and is gone. */
  function StealResult(global: seq<Header>, local: seq<Header>): (seq<Header>, seq<Header>)
    requires |local| <= CAPACITY
  {
    var count, free := BatchSize(|global|), CAPACITY - |local|;
    if count <= free then (global[count..], local + global[..count])
    else (global[free + 1..], local + global[..free])
  }

  class GlobalQueue {
    var inner: seq<Header>

    constructor ()
      ensures inner == []
    {
      inner := [];
    }

    method PushHeader(h: Header)
      modifies this
      ensures inner == old(inner) + [h]
    {
      inner := inner + [h];
    }

    method Pop() returns (r: Option<Header>)
      modifies this
      ensures old(inner) == [] ==> r == None && inner == []
      ensures old(inner) != [] ==> r == Some(old(inner)[0]) && inner == old(inner)[1..]
    {
      if inner == [] { return None; }
      r := Some(inner[0]);
      inner := inner[1..];
    }

    /** Moves a batch from the front to `local`, in order, until the batch is done or `local` is full. */
    method StealBatch(local: LocalQueue) returns (stolen: nat)
      requires local.Valid()
      modifies this, local`tail, local.buf
      ensures local.Valid()
      ensures (inner, local.Contents()) == StealResult(old(inner), old(local.Contents()))
      ensures |local.Contents()| == |old(local.Contents())| + stolen
    {
      ghost var g, l := inner, local.Contents();
      var count := BatchSize(|inner|);
      stolen := 0;
      for i := 0 to count
        invariant local.Valid() && stolen == i && |l| + i <= CAPACITY
        invariant inner == g[i..] && local.Contents() == l + g[..i]
      {
        var h := Pop();
        var back := local.Push(h.value);
        if back.Some? {
          assert |l| + i == CAPACITY;
          return;
        }
        stolen := stolen + 1;
      }
    }
  }

  /** Stealing keeps every header exactly when the batch fits: otherwise one is lost. */
  lemma {:induction false} StealConservesIff(global: seq<Header>, local: seq<Header>)
    requires |local| <= CAPACITY
    ensures var (g, l) := StealResult(global, local);
      && |l| <= CAPACITY
      && (multiset(g) + multiset(l) == multiset(global) + multiset(local) <==>
          BatchSize(|global|) <= CAPACITY - |local|)
  {
    var count, free := BatchSize(|global|), CAPACITY - |local|;
    var (g, l) := StealResult(global, local);
    if count <= free {
      assert global == global[..count] + global[count..];
    } else {
      assert |multiset(g) + multiset(l)| == |g| + |l|;
      assert |multiset(global) + multiset(local)| == |global| + |local|;
    }
  }

  /** A batch that fits leaves half of the headers, rounded up, and of a single one none. */
  lemma StealTakesHalf(global: seq<Header>, local: seq<Header>)
    requires |local| <= CAPACITY && BatchSize(|global|) <= CAPACITY - |local|
    ensures var (g, l) := StealResult(global, local);
      var taken := |l| - |local|;
      && l == local + global[..taken] && g == global[taken..]
      && (|global| >= 2 ==> taken <= |g| <= taken + 1)
      && (|global| == 1 ==> taken == 1)
  {
  }

  /** When the batch does not fit, it is the header behind the last one that fitted that is lost. */
  lemma {:induction false} StealLosesOne(global: seq<Header>, local: seq<Header>)
    requires |local| <= CAPACITY && BatchSize(|global|) > CAPACITY - |local|
    ensures var (g, l) := StealResult(global, local);
      multiset(g) + multiset(l) + multiset{global[CAPACITY - |local|]} == multiset(global) + multiset(local)
  {
    var free := CAPACITY - |local|;
    assert global == global[..free] + [global[free]] + global[free + 1..];
  }

  /** An idle worker that steals from 514 queued headers drops the one at index 256. */
  lemma StealFrom514()
    ensures var (g, l) := StealResult(seq(514, i => i), []); |g| == 257 && |l| == 256 && 256 !in g && 256 !in l
  {
    var all: seq<Header> := seq(514, i => i);
    var (g, l) := StealResult(all, []);
    assert g == all[257..] && l == [] + all[..256];
  }

  lemma TailSlot(head: nat, tail: nat, n: nat)
    requires head < U64 && tail < U64 && n == WrappingSub(tail, head)
    ensures tail % CAPACITY == SlotOf(head, n)
  {
    assert tail == (head + n) % U64;
    WrapKeepsSlot(head + n);
  }

  lemma NextTail(head: nat, tail: nat, n: nat)
    requires head < U64 && tail < U64 && n == WrappingSub(tail, head) && n < CAPACITY
    ensures WrappingAdd(tail, 1) < U64 && WrappingSub(WrappingAdd(tail, 1), head) == n + 1
  {
  }

  lemma PrevTail(head: nat, tail: nat, n: nat)
    requires head < U64 && tail < U64 && n == WrappingSub(tail, head) && 0 < n <= CAPACITY
    ensures WrappingSub(tail, 1) < U64 && WrappingSub(WrappingSub(tail, 1), head) == n - 1
  {
  }

  lemma NextHead(head: nat, tail: nat, n: nat)
    requires head < U64 && tail < U64 && n == WrappingSub(tail, head) && 0 < n <= CAPACITY
    ensures WrappingAdd(head, 1) < U64 && WrappingSub(tail, WrappingAdd(head, 1)) == n - 1
  {
  }

  lemma HeadSlot(head: nat, i: nat)
    requires head < U64
    ensures SlotOf(WrappingAdd(head, 1), i) == SlotOf(head, i + 1)
  {
    if head + 1 == U64 {
      WrapKeepsSlot(head + 1 + i);
      WrapKeepsSlot(i);
      assert head + 1 + i == U64 + i;
      ModShift(i, 0x100_0000_0000_0000);
    }
  }
}
