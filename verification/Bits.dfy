/** The bit arithmetic that file block lists rest on: powers of two, logarithms, trailing zeros and
    bit counts of 32-bit numbers. */
module Bits {

  function Pow2(n: nat): (r: nat)
    ensures r > 0
  {
    if n == 0 then 1 else 2 * Pow2(n - 1)
  }

  /** floor(log2(n)) */
  function Log2(n: nat): nat
    requires n > 0
  {
    if n == 1 then 0 else 1 + Log2(n / 2)
  }

  /** The number of trailing zero bits. */
  function Ctz(n: nat): nat
    requires n > 0
  {
    if n % 2 == 1 then 0 else 1 + Ctz(n / 2)
  }

  /** The number of one bits. */
  function Popc(n: nat): nat {
    if n == 0 then 0 else n % 2 + Popc(n / 2)
  }

  lemma Pow2Step(n: nat)
    ensures Pow2(0) == 1 && Pow2(n + 1) == 2 * Pow2(n)
  {
  }

  lemma Log2Bounds(n: nat)
    requires n > 0
    ensures Pow2(Log2(n)) <= n < 2 * Pow2(Log2(n))
  {
    if n > 1 {
      Log2Bounds(n / 2);
    }
  }

  lemma {:induction false} Pow2Monotone(a: nat, b: nat)
    requires a <= b
    ensures Pow2(a) <= Pow2(b)
    decreases b
  {
    if a < b {
      Pow2Monotone(a, b - 1);
    }
  }

  lemma Log2Monotone(m: nat, n: nat)
    requires 0 < m <= n
    ensures Log2(m) <= Log2(n)
  {
    Log2Bounds(m);
    Log2Bounds(n);
    if Log2(n) < Log2(m) {
      Pow2Monotone(Log2(n) + 1, Log2(m));
    }
  }

  /** Counting down by one turns the trailing zeros into ones and clears one bit. */
  lemma {:induction false} PopcPred(n: nat)
    requires n > 0
    ensures Popc(n) + Ctz(n) == Popc(n - 1) + 1
    decreases n
  {
    if n % 2 == 0 {
      PopcPred(n / 2);
      assert (n - 1) / 2 == n / 2 - 1;
    } else {
      assert (n - 1) / 2 == n / 2;
    }
  }

  lemma {:induction false} PopcBound(n: nat)
    requires n > 0
    ensures 1 <= Popc(n) <= Log2(n) + 1
    decreases n
  {
    if n > 1 {
      PopcBound(n / 2);
    }
  }

  lemma {:induction false} CtzBound(n: nat)
    requires n > 0
    ensures Ctz(n) <= Log2(n)
    ensures Pow2(Ctz(n)) <= n
    decreases n
  {
    if n % 2 == 0 {
      CtzBound(n / 2);
    }
  }

  /** Subtracting a power of two that divides a number keeps the lower zeros and, when it is the
      highest that divides it, adds at least one. */
  lemma {:induction false} CtzAfterSkip(n: nat, j: nat)
    requires 0 < n && j <= Ctz(n) && Pow2(j) < n
    ensures Ctz(n - Pow2(j)) >= j
    ensures j < Ctz(n) ==> Ctz(n - Pow2(j)) == j
    ensures j == Ctz(n) ==> Ctz(n - Pow2(j)) > j
    decreases n
  {
    if j > 0 {
      assert n % 2 == 0;
      CtzAfterSkip(n / 2, j - 1);
      assert (n - Pow2(j)) / 2 == n / 2 - Pow2(j - 1);
      assert (n - Pow2(j)) % 2 == 0;
    } else if Ctz(n) > 0 {
      assert (n - 1) % 2 == 1;
    } else {
      assert (n - 1) % 2 == 0;
    }
  }

  // ---------------------------------------------------------------- lfs_npw2

  lemma {:induction false} Log2Shift(n: nat, k: nat)
    requires n >= Pow2(k)
    ensures n / Pow2(k) > 0 && Log2(n) == k + Log2(n / Pow2(k))
    decreases k
  {
    if k > 0 {
      Log2Shift(n, k - 1);
      var m := n / Pow2(k - 1);
      HalfOfQuotient(n, Pow2(k - 1));
      if m == 1 {
        QuotientBelow(n, Pow2(k - 1));
        assert false;
      }
    }
  }

  lemma HalfOfQuotient(n: nat, d: nat)
    requires d > 0
    ensures n / (2 * d) == n / d / 2
  {
    var q, r := n / d, n % d;
    assert n == q * d + r;
    var h := q / 2;
    assert n == h * (2 * d) + (q % 2 * d + r);
    assert 0 <= q % 2 * d + r < 2 * d;
    QuotientUnique(n, 2 * d, h);
  }

  lemma QuotientUnique(n: nat, d: nat, q: nat)
    requires d > 0 && q * d <= n < (q + 1) * d
    ensures n / d == q
  {
    assert n == n / d * d + n % d;
    StepMul(n / d, q, d);
    StepMul(q, n / d, d);
  }

  lemma StepMul(a: nat, b: nat, d: nat)
    ensures a < b ==> (a + 1) * d <= b * d
  {
  }

  lemma QuotientBelow(n: nat, d: nat)
    requires d > 0 && n / d == 1
    ensures n < 2 * d
  {
    assert n == n / d * d + n % d;
  }

  /** One step of the search for the highest bit: if it lies above the lower `k` bits, those are
      shifted out and counted. */
  method ShiftStep(a: nat, k: nat, pow: nat) returns (a': nat, s: nat)
    requires pow == Pow2(k) && k > 0
    ensures a > 0 ==> a' > 0 && Log2(a) == s + Log2(a')
    ensures s == (if a > pow - 1 then k else 0) && a' == if a > pow - 1 then a / pow else a
  {
    if a > pow - 1 {
      Log2Shift(a, k);
      return a / pow, k;
    }
    return a, 0;
  }

  lemma SmallPowers()
    ensures Pow2(2) == 0x4 && Pow2(4) == 0x10 && Pow2(8) == 0x100 && Pow2(16) == 0x1_0000
  {
    assert Pow2(6) == 0x40;
    assert Pow2(10) == 0x400;
    assert Pow2(12) == 0x1000;
    assert Pow2(14) == 0x4000;
  }

  lemma SmallLog(a: nat)
    ensures 0 < a <= 3 ==> Log2(a) == a / 2
  {
  }

  /** lfs_npw2 without intrinsics, on 32-bit numbers. */
  method Npw2(arg: nat) returns (r: nat)
    requires arg < 0x1_0000_0000
    ensures arg >= 2 ==> r == Log2(arg - 1) + 1
    ensures arg == 1 ==> r == 1
    ensures arg == 0 ==> r == 32
  {
    hide Pow2, Log2;
    var a: nat := (arg - 1) % 0x1_0000_0000;
    ghost var a0 := a;
    SmallPowers();
    r := 0;
    var s;
    a, s := ShiftStep(a, 16, 0x1_0000);
    r := r + s;
    a, s := ShiftStep(a, 8, 0x100);
    r := r + s;
    a, s := ShiftStep(a, 4, 0x10);
    r := r + s;
    a, s := ShiftStep(a, 2, 0x4);
    r := r + s;
    SmallLog(a);
    // r is even here, so joining the last bit is adding it
    r := r + a / 2 + 1;
  }

  /** A power of two that is at least `a`, with none smaller. */
  predicate IsNextPower(a: nat, r: nat) {
    a <= Pow2(r) && (r > 0 ==> Pow2(r - 1) < a)
  }

  /** What the comment on lfs_npw2 promises holds for every argument but 0 and 1. */
  lemma Npw2Correct(a: nat, r: nat)
    requires a < 0x1_0000_0000
    requires r == if a >= 2 then Log2(a - 1) + 1 else if a == 1 then 1 else 32
    ensures IsNextPower(a, r) <==> a >= 2
  {
    if a >= 2 {
      Log2Bounds(a - 1);
    } else {
      assert Pow2(0) == 1;
    }
  }
}
