/** The 128-bit division that the browser links in place of the compiler's own. */
module Division {
  import opened Powers

  const U128: nat := 0x1_0000_0000_0000_0000_0000_0000_0000_0000

  /** `__udivti3`: one bit of the quotient at a time, from the highest. The shift is cut to 128 bits and
      loses nothing, because the rest is never more than the part of the dividend it came from. Setting
      a bit of the quotient is an addition, because all lower bits are still zero. */
  method UDivTi3(a: nat, b: nat) returns (q: nat, ghost r: nat)
    requires a < U128 && b < U128
    ensures b > 0 ==> a == q * b + r && r < b
    ensures b == 0 ==> q == 0
  {
    q, r := 0, a;
    if b == 0 || b > a {
      return;
    }
    hide Pow2;
    var rest: nat, i: nat := 0, 128;
    ghost var k: nat, head: nat := 0, 0;
    Start(a);
    while i > 0
      invariant i <= 128 && rest < b && rest <= head && head == a / Pow2(i) && head == k * b + rest && q == k * Pow2(i)
    {
      i := i - 1;
      var bit := a / Pow2(i) % 2;
      NextBit(a, i);
      PrefixIsBelow(a, i, head, bit, rest);
      OneMore(k, b, Pow2(i));
      Pow2Step(i);
      rest, head := rest * 2 % U128 + bit, 2 * head + bit;
      if rest >= b {
        rest, q, k := rest - b, q + Pow2(i), 2 * k + 1;
      } else {
        k := 2 * k;
      }
    }
    Pow2Zero();
    r := rest;
  }

  lemma Pow2Step(i: nat)
    ensures Pow2(i + 1) == 2 * Pow2(i)
  {
  }

  lemma Start(a: nat)
    requires a < U128
    ensures a / Pow2(128) == 0
  {
    Pow2Of32();
    Pow2Adds(32, 32);
    Pow2Adds(64, 64);
  }

  /** The dividend above bit `i` is the one above bit `i + 1` with one more bit. */
  lemma NextBit(a: nat, i: nat)
    ensures a / Pow2(i) == 2 * (a / Pow2(i + 1)) + a / Pow2(i) % 2
  {
    var p := Pow2(i);
    QuotientAndRest(a, p);
    HalfQuotient(a, p);
  }

  lemma HalfQuotient(a: nat, p: nat)
    requires p > 0
    ensures a / p / 2 == a / (2 * p)
  {
    QuotientAndRest(a, p);
    var q, m := a / p, a % p;
    assert q == 2 * (q / 2) + q % 2;
    Product(q / 2, q % 2, p);
    RemainderIs(a, 2 * p, q / 2, q % 2 * p + m);
  }

  lemma Product(h: nat, bit: nat, p: nat)
    requires bit < 2
    ensures (2 * h + bit) * p == h * (2 * p) + bit * p && bit * p <= p
  {
  }

  lemma PrefixIsBelow(a: nat, i: nat, head: nat, bit: nat, rest: nat)
    requires a < U128 && a / Pow2(i) == 2 * head + bit && rest <= head
    ensures rest * 2 % U128 == rest * 2
  {
    hide Pow2;
    var p := Pow2(i);
    QuotientAndRest(a, p);
    AtLeastOnce(a / p, p);
  }

  lemma OneMore(k: nat, b: nat, p: nat)
    ensures 2 * (k * b) == 2 * k * b && (2 * k + 1) * b == 2 * (k * b) + b
    ensures k * (2 * p) == 2 * k * p && (2 * k + 1) * p == 2 * k * p + p
  {
  }
}
