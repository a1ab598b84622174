/**
  Trace and span identifiers: the mixing function on 64-bit words, and identifiers drawn from a
  counter and a clock.
 */
module TraceIds {
  import opened Words

  datatype TraceId = TraceId(hi: u64, lo: u64)

  // ---- Mixing ----

  const MUL1: u64 := 0xbf58476d1ce4e5b9
  const MUL2: u64 := 0x94d049bb133111eb

  /** The inverses of the two multipliers modulo 2^64. */
  const INV1: u64 := 0x96de1b173f119089
  const INV2: u64 := 0x319642b2d24d8ec3

  function XorShift(x: u64, k: nat): u64 {
    ShiftedWord(x, k);
    Xor(x, ShiftRight(x, k))
  }

  function Mix(x: u64): u64 {
    XorShift(WrappingMul(XorShift(WrappingMul(XorShift(x, 30), MUL1), 27), MUL2), 31)
  }

  /** The local is rewritten step by step. */
  method MixBits(x: u64) returns (r: u64)
    ensures r == Mix(x)
  {
    r := x;
    r := XorShift(r, 30);
    r := WrappingMul(r, MUL1);
    r := XorShift(r, 27);
    r := WrappingMul(r, MUL2);
    r := XorShift(r, 31);
  }

  // ---- Every step can be undone ----

  /** Undoes a shift by at least a third of the word. */
  function XorUnshift(y: u64, k: nat): u64 {
    WordIsPow2();
    ShiftedWord(y, k);
    ShiftedWord(y, 2 * k);
    XorBelow(XorShift(y, k), ShiftRight(y, 2 * k), 64);
    Xor(XorShift(y, k), ShiftRight(y, 2 * k))
  }

  lemma {:induction false} UnshiftShift(x: u64, k: nat)
    requires 22 <= k
    ensures XorUnshift(XorShift(x, k), k) == x
  {
    var s1, s2, s3 := ShiftRight(x, k), ShiftRight(x, 2 * k), ShiftRight(x, 3 * k);
    var y := XorShift(x, k);
    ShiftTwice(x, k, k);
    ShiftTwice(x, k, 2 * k);
    WordIsPow2();
    ShiftOut(x, 3 * k, 64);
    ShiftXor(x, s1, k);
    ShiftXor(x, s1, 2 * k);
    XorZero(s2);
    assert ShiftRight(y, k) == Xor(s1, s2) && ShiftRight(y, 2 * k) == s2;
    XorAssoc(x, s1, Xor(s1, s2));
    XorCancel(s1, s2);
    XorCancel(x, s2);
  }

  lemma {:induction false} ShiftUnshift(y: u64, k: nat)
    requires 22 <= k
    ensures XorShift(XorUnshift(y, k), k) == y
  {
    var t1, t2 := ShiftRight(y, k), ShiftRight(y, 2 * k);
    var z := XorUnshift(y, k);
    ShiftTwice(y, k, k);
    ShiftTwice(y, 2 * k, k);
    WordIsPow2();
    ShiftOut(y, 3 * k, 64);
    ShiftXor(Xor(y, t1), t2, k);
    ShiftXor(y, t1, k);
    XorZero(Xor(t1, t2));
    assert ShiftRight(z, k) == Xor(t1, t2);
    XorAssoc(y, t1, t2);
    XorCancel(y, Xor(t1, t2));
  }

  lemma AddMultiple(x: u64, t: int)
    ensures (x + U64 * t) % U64 == x
  {
  }

  lemma MulInverse(x: u64, m: u64, inv: u64)
    requires m * inv % U64 == 1
    ensures WrappingMul(WrappingMul(x, m), inv) == x
  {
    var q, r := x * m / U64, x * m % U64;
    var c := m * inv / U64;
    assert r * inv == x + U64 * (c * x - q * inv) by {
      assert (x * m) * inv == x * (m * inv);
      assert x * m == U64 * q + r && m * inv == U64 * c + 1;
      assert (U64 * q + r) * inv == U64 * (q * inv) + r * inv;
      assert x * (U64 * c + 1) == U64 * (c * x) + x;
    }
    AddMultiple(x, c * x - q * inv);
  }

  lemma Inverses()
    ensures MUL1 * INV1 % U64 == 1 && MUL2 * INV2 % U64 == 1
    ensures INV1 * MUL1 % U64 == 1 && INV2 * MUL2 % U64 == 1
  {
  }

  function Unmix(y: u64): u64 {
    XorUnshift(WrappingMul(XorUnshift(WrappingMul(XorUnshift(y, 31), INV2), 27), INV1), 30)
  }

  /** The mixing function is a bijection on 64-bit words. */
  lemma {:induction false} MixBijective(x: u64)
    ensures Unmix(Mix(x)) == x && Mix(Unmix(x)) == x
  {
    Inverses();
    var a := XorShift(x, 30);
    var b := WrappingMul(a, MUL1);
    var c := XorShift(b, 27);
    var d := WrappingMul(c, MUL2);
    UnshiftShift(x, 30);
    MulInverse(a, MUL1, INV1);
    UnshiftShift(b, 27);
    MulInverse(c, MUL2, INV2);
    UnshiftShift(d, 31);
    var e := XorUnshift(x, 31);
    var f := WrappingMul(e, INV2);
    var g := XorUnshift(f, 27);
    var h := WrappingMul(g, INV1);
    ShiftUnshift(x, 31);
    MulInverse(e, INV2, MUL2);
    ShiftUnshift(f, 27);
    MulInverse(g, INV1, MUL1);
    ShiftUnshift(h, 30);
  }

  lemma XorShiftZero(z: u64, k: nat)
    requires z == 0
    ensures XorShift(z, k) == 0
  {
    ShiftBelow(z, k);
  }

  lemma MixesZero(z: u64)
    requires z == 0
    ensures Mix(z) == 0
  {
    XorShiftZero(z, 30);
    var b := WrappingMul(XorShift(z, 30), MUL1);
    XorShiftZero(b, 27);
    var d := WrappingMul(XorShift(b, 27), MUL2);
    XorShiftZero(d, 31);
  }

  /** Only zero is mixed to zero. */
  lemma MixZero(x: u64)
    ensures Mix(x) == 0 <==> x == 0
  {
    var z: u64 := 0;
    MixesZero(z);
    MixInjective(x, z);
  }

  lemma MixInjective(x: u64, y: u64)
    ensures Mix(x) == Mix(y) <==> x == y
  {
    MixBijective(x);
    MixBijective(y);
  }

  // ---- Identifiers ----

  function SpanIdOf(now: u64, seqNo: u64): u64 { Mix(WrappingAdd(now, seqNo)) }

  function TraceIdOf(now: u64, seqNo: u64): TraceId {
    var hi := Mix(WrappingAdd(now, seqNo));
    TraceId(hi, Mix(WrappingAdd(hi, seqNo)))
  }

  /** Only a zero clock with a zero counter gives the invalid all-zero identifier. */
  lemma TraceIdZero(now: u64, seqNo: u64)
    ensures TraceIdOf(now, seqNo) == TraceId(0, 0) <==> now == 0 && seqNo == 0
  {
    var hi := Mix(WrappingAdd(now, seqNo));
    MixZero(WrappingAdd(now, seqNo));
    MixZero(WrappingAdd(hi, seqNo));
    if hi == 0 { AddNothing(hi, seqNo); }
    if seqNo == 0 { AddNothing(seqNo, now); }
  }

  lemma AddNothing(z: u64, x: u64)
    requires z == 0
    ensures WrappingAdd(z, x) == x && WrappingAdd(x, z) == x
  {
  }

  /** The process-wide counter that every identifier advances. */
  class IdSource {
    var counter: u64

    constructor ()
      ensures counter == 1
    {
      counter := 1;
    }

    method NextSeq() returns (seqNo: u64)
      modifies this
      ensures seqNo == old(counter) && counter == WrappingAdd(old(counter), 1)
    {
      seqNo := counter;
      counter := WrappingAdd(counter, 1);
    }

    method GenerateSpanId(now: u64) returns (id: u64)
      modifies this
      ensures id == SpanIdOf(now, old(counter)) && counter == WrappingAdd(old(counter), 1)
      ensures id == 0 <==> WrappingAdd(now, old(counter)) == 0
    {
      var seqNo := NextSeq();
      id := MixBits(WrappingAdd(now, seqNo));
      MixZero(WrappingAdd(now, seqNo));
    }

    method GenerateTraceId(now: u64) returns (id: TraceId)
      modifies this
      ensures id == TraceIdOf(now, old(counter)) && counter == WrappingAdd(old(counter), 1)
      ensures id.hi == SpanIdOf(now, old(counter)) && id.lo == SpanIdOf(id.hi, old(counter))
    {
      var seqNo := NextSeq();
      var hi := MixBits(WrappingAdd(now, seqNo));
      var lo := MixBits(WrappingAdd(hi, seqNo));
      id := TraceId(hi, lo);
    }
  }

  lemma AddInjective(x: u64, y: u64, n: u64)
    ensures WrappingAdd(x, n) == WrappingAdd(y, n) <==> x == y
    ensures WrappingAdd(n, x) == WrappingAdd(n, y) <==> x == y
  {
  }

  /** Span identifiers collide exactly when clock plus counter agree; so from one clock reading,
      different counters never give the same identifier. */
  lemma SpanIdsCollideIff(now: u64, seqNo: u64, now': u64, seqNo': u64)
    ensures SpanIdOf(now, seqNo) == SpanIdOf(now', seqNo') <==> WrappingAdd(now, seqNo) == WrappingAdd(now', seqNo')
    ensures now == now' && seqNo != seqNo' ==> SpanIdOf(now, seqNo) != SpanIdOf(now', seqNo')
  {
    MixInjective(WrappingAdd(now, seqNo), WrappingAdd(now', seqNo'));
    AddInjective(seqNo, seqNo', now);
  }

  /** Trace identifiers never collide: an identifier determines both the clock and the counter. */
  lemma TraceIdsDetermineOrigin(now: u64, seqNo: u64, now': u64, seqNo': u64)
    ensures TraceIdOf(now, seqNo) == TraceIdOf(now', seqNo') <==> now == now' && seqNo == seqNo'
  {
    var hi := Mix(WrappingAdd(now, seqNo));
    MixInjective(WrappingAdd(now, seqNo), WrappingAdd(now', seqNo'));
    MixInjective(WrappingAdd(hi, seqNo), WrappingAdd(hi, seqNo'));
    AddInjective(seqNo, seqNo', hi);
    AddInjective(now, now', seqNo);
  }

  /** The counter after `n` draws. */
  function Advanced(counter: u64, n: nat): u64 { (counter + n) % U64 }

  lemma RemaindersDiffer(a: nat, b: nat, w: nat)
    requires a < b < a + w
    ensures a % w != b % w
  {
    var q := b / w - a / w;
    assert b - a == w * q + (b % w - a % w);
    assert q >= 1 ==> w * q >= w;
    assert q <= 0 ==> w * q <= 0;
  }

  /** Within one process, the counter being drawn once per identifier, no two of 2^64 successive trace
      identifiers are equal, whatever the clock does. */
  lemma TraceIdsDistinctInProcess(counter: u64, i: nat, j: nat, clock: nat -> u64)
    requires i < j < i + U64
    ensures TraceIdOf(clock(i), Advanced(counter, i)) != TraceIdOf(clock(j), Advanced(counter, j))
  {
    RemaindersDiffer(counter + i, counter + j, U64);
    DifferentCounters(clock(i), Advanced(counter, i), clock(j), Advanced(counter, j));
  }

  lemma DifferentCounters(now: u64, seqNo: u64, now': u64, seqNo': u64)
    requires seqNo != seqNo'
    ensures TraceIdOf(now, seqNo) != TraceIdOf(now', seqNo')
  {
    TraceIdsDetermineOrigin(now, seqNo, now', seqNo');
  }
}
