/** Powers of two, and the bits of natural numbers. */
module Powers {

  const U32: nat := 0x1_0000_0000
  const U64: nat := 0x1_0000_0000_0000_0000

  function Pow2(n: nat): (r: nat)
    ensures r > 0
  {
    if n == 0 then 1 else 2 * Pow2(n - 1)
  }

  lemma Pow2Zero()
    ensures Pow2(0) == 1
  {
  }

  lemma {:induction false} Pow2Grows(m: nat, n: nat)
    requires m < n
    ensures Pow2(m) < Pow2(n)
    decreases n
  {
    if m + 1 < n {
      Pow2Grows(m, n - 1);
    }
  }

  function And(x: nat, y: nat): (r: nat)
    ensures r <= x
  {
    if x == 0 then 0 else (if x % 2 == 1 && y % 2 == 1 then 1 else 0) + 2 * And(x / 2, y / 2)
  }

  function Xor(x: nat, y: nat): nat
    decreases x + y
  {
    if x == 0 && y == 0 then 0 else (if x % 2 != y % 2 then 1 else 0) + 2 * Xor(x / 2, y / 2)
  }

  lemma {:induction false} XorFits(x: nat, y: nat, k: nat)
    requires x < Pow2(k) && y < Pow2(k)
    ensures Xor(x, y) < Pow2(k)
  {
    if k > 0 {
      XorFits(x / 2, y / 2, k - 1);
    }
  }

  lemma Pow2Of32()
    ensures Pow2(32) == U32
  {
    assert Pow2(8) == 256;
    Pow2Adds(8, 8);
    Pow2Adds(16, 16);
  }

  lemma {:induction false} Pow2Adds(a: nat, b: nat)
    ensures Pow2(a + b) == Pow2(a) * Pow2(b)
  {
    if a > 0 {
      Pow2Adds(a - 1, b);
    }
  }

  /** A mask of `k` ones is the remainder by 2^k. */
  lemma {:induction false} MaskIsRemainder(x: nat, k: nat)
    ensures And(x, Pow2(k) - 1) == x % Pow2(k)
  {
    if k == 0 {
      AndZero(x);
    } else {
      hide And;
      MaskIsRemainder(x / 2, k - 1);
      AndOdd(x, Pow2(k - 1));
      HalfRemainder(x, Pow2(k - 1));
    }
  }

  lemma AndOdd(x: nat, h: nat)
    requires h > 0
    ensures And(x, 2 * h - 1) == x % 2 + 2 * And(x / 2, h - 1)
  {
    assert (2 * h - 1) / 2 == h - 1 && (2 * h - 1) % 2 == 1;
  }

  lemma HalfRemainder(x: nat, h: nat)
    requires h > 0
    ensures x % (2 * h) == 2 * (x / 2 % h) + x % 2
  {
    var half, odd := x / 2, x % 2;
    var q, m := half / h, half % h;
    QuotientAndRest(half, h);
    assert 2 * (q * h) == q * (2 * h);
    RemainderIs(x, 2 * h, q, 2 * m + odd);
  }

  lemma QuotientAndRest(x: nat, n: nat)
    requires n > 0
    ensures x == x / n * n + x % n && x % n < n
  {
  }

  lemma RemainderIs(x: nat, n: nat, q: nat, m: nat)
    requires n > 0 && m < n && x == q * n + m
    ensures x % n == m && x / n == q
  {
    QuotientAndRest(x, n);
    var p, r := x / n, x % n;
    Below(p, q, n);
    Below(q, p, n);
  }

  lemma Below(a: nat, b: nat, n: nat)
    ensures a < b ==> a * n + n <= b * n
  {
    if a < b {
      MulDistributes(a, b - a, n);
      AtLeastOnce(n, b - a);
    }
  }

  lemma AtLeastOnce(n: nat, d: nat)
    requires d > 0
    ensures n * d >= n
  {
  }

  lemma MulAssociates(a: int, b: int, c: int)
    ensures a * b * c == a * (b * c)
  {
  }

  lemma MulDistributes(a: int, b: int, n: int)
    ensures (a + b) * n == a * n + n * b
  {
  }

  lemma {:induction false} AndZero(x: nat)
    ensures And(x, 0) == 0
  {
    if x > 0 {
      AndZero(x / 2);
    }
  }

  predicate IsPower(n: nat, k: nat) { n == Pow2(k) }

  /** The test of `scrypt` for powers of two. */
  lemma {:induction false} PowerOfTwoTest(n: nat)
    requires n > 0
    ensures And(n, n - 1) == 0 <==> exists k: nat :: IsPower(n, k)
  {
    if n == 1 {
      assert IsPower(n, 0);
    } else if n % 2 == 1 {
      assert (n - 1) / 2 == n / 2;
      AndSelf(n / 2);
      forall k: nat ensures !IsPower(n, k) {
      }
    } else {
      assert (n - 1) / 2 == n / 2 - 1;
      PowerOfTwoTest(n / 2);
      HalfOfPower(n);
    }
  }

  lemma HalfOfPower(n: nat)
    requires n > 0 && n % 2 == 0
    ensures (exists k: nat :: IsPower(n, k)) <==> (exists k: nat :: IsPower(n / 2, k))
  {
    forall k: nat | IsPower(n / 2, k) ensures IsPower(n, k + 1) {
    }
    forall k: nat | IsPower(n, k) ensures k > 0 && IsPower(n / 2, k - 1) {
    }
  }

  lemma {:induction false} AndSelf(x: nat)
    ensures And(x, x) == x
  {
    if x > 0 {
      AndSelf(x / 2);
    }
  }
}
