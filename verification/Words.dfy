/**
  Machine words as numbers: exclusive or and shifts bit by bit, and arithmetic that wraps at 2^64.
 */
module Words {

  /** 2^64, the end of `u64` and of `usize`. */
  const U64: nat := 0x1_0000_0000_0000_0000

  /** An unsigned 64-bit word. */
  type u64 = x: nat | x < U64

  function Xor(x: nat, y: nat): nat {
    if x == 0 && y == 0 then 0
    else (if x % 2 != y % 2 then 1 else 0) + 2 * Xor(x / 2, y / 2)
  }

  function ShiftRight(x: nat, k: nat): nat {
    if k == 0 then x else ShiftRight(x / 2, k - 1)
  }

  function WrappingMul(x: u64, m: u64): u64 { x * m % U64 }

  function WrappingAdd(x: nat, y: nat): u64 { (x + y) % U64 }

  function WrappingSub(x: u64, y: u64): u64 { (x + U64 - y) % U64 }

  ghost function Pow2(n: nat): nat { if n == 0 then 1 else 2 * Pow2(n - 1) }

  lemma {:induction false} XorZero(x: nat)
    ensures Xor(x, 0) == x && Xor(0, x) == x
  {
    if x != 0 { XorZero(x / 2); }
  }

  lemma {:induction false} XorSelf(x: nat)
    ensures Xor(x, x) == 0
  {
    if x != 0 { XorSelf(x / 2); }
  }

  lemma {:induction false} XorAssoc(x: nat, y: nat, z: nat)
    ensures Xor(Xor(x, y), z) == Xor(x, Xor(y, z))
    decreases x + y + z
  {
    if x + y + z != 0 {
      XorHalves(x, y);
      XorHalves(y, z);
      XorHalves(Xor(x, y), z);
      XorHalves(x, Xor(y, z));
      XorAssoc(x / 2, y / 2, z / 2);
    }
  }

  lemma XorHalves(x: nat, y: nat)
    ensures Xor(x, y) / 2 == Xor(x / 2, y / 2)
    ensures Xor(x, y) % 2 == (if x % 2 != y % 2 then 1 else 0)
  {
  }

  lemma {:induction false} XorBelow(x: nat, y: nat, n: nat)
    requires x < Pow2(n) && y < Pow2(n)
    ensures Xor(x, y) < Pow2(n)
  {
    if n != 0 && !(x == 0 && y == 0) { XorBelow(x / 2, y / 2, n - 1); }
  }

  lemma {:induction false} ShiftXor(x: nat, y: nat, k: nat)
    ensures ShiftRight(Xor(x, y), k) == Xor(ShiftRight(x, k), ShiftRight(y, k))
    decreases k
  {
    if k != 0 {
      XorHalves(x, y);
      ShiftXor(x / 2, y / 2, k - 1);
    }
  }

  lemma {:induction false} ShiftTwice(x: nat, j: nat, k: nat)
    ensures ShiftRight(ShiftRight(x, j), k) == ShiftRight(x, j + k)
    decreases j
  {
    if j != 0 { ShiftTwice(x / 2, j - 1, k); }
  }

  lemma {:induction false} ShiftOut(x: nat, k: nat, n: nat)
    requires x < Pow2(n) && n <= k
    ensures ShiftRight(x, k) == 0
    decreases k
  {
    if k != 0 { ShiftOut(x / 2, k - 1, if n == 0 then 0 else n - 1); }
  }

  lemma {:induction false} ShiftBelow(x: nat, k: nat)
    ensures ShiftRight(x, k) <= x
    decreases k
  {
    if k != 0 { ShiftBelow(x / 2, k - 1); }
  }

  lemma {:induction false} Pow2Sum(m: nat, n: nat)
    ensures Pow2(m + n) == Pow2(m) * Pow2(n)
    decreases m
  {
    if m != 0 {
      Pow2Sum(m - 1, n);
      assert 2 * (Pow2(m - 1) * Pow2(n)) == (2 * Pow2(m - 1)) * Pow2(n);
    }
  }

  lemma WordIsPow2()
    ensures Pow2(64) == U64
  {
    assert Pow2(4) == 16;
    Pow2Sum(4, 4);
    Pow2Sum(8, 8);
    Pow2Sum(16, 16);
    Pow2Sum(32, 32);
  }

  lemma ShiftedWord(x: u64, k: nat)
    ensures ShiftRight(x, k) < U64 && Xor(x, ShiftRight(x, k)) < U64
  {
    WordIsPow2();
    ShiftBelow(x, k);
    XorBelow(x, ShiftRight(x, k), 64);
  }

  lemma XorCancel(x: nat, y: nat)
    ensures Xor(Xor(x, y), y) == x && Xor(x, Xor(x, y)) == y
  {
    XorAssoc(x, y, y);
    XorSelf(y);
    XorZero(x);
    XorAssoc(x, x, y);
    XorSelf(x);
    XorZero(y);
  }
}
