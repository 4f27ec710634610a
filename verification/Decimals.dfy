/** Decimal numbers as bytes. */
module Decimals {
  import opened Bytes

  /** The length of the digits at the front. */
  function DigitsLen(s: seq<Byte>): (n: nat)
    ensures n <= |s| && (forall i :: 0 <= i < n ==> IsDigit(s[i])) && (n < |s| ==> !IsDigit(s[n]))
  {
    if s == [] || !IsDigit(s[0]) then 0 else 1 + DigitsLen(s[1..])
  }

  lemma {:induction false} DigitsLenIs(s: seq<Byte>, n: nat)
    requires n <= |s| && (forall i :: 0 <= i < n ==> IsDigit(s[i])) && (n < |s| ==> !IsDigit(s[n]))
    ensures DigitsLen(s) == n
  {
    if n > 0 {
      DigitsLenIs(s[1..], n - 1);
    }
  }

  function Value(d: seq<Byte>): nat
    requires forall i :: 0 <= i < |d| ==> IsDigit(d[i])
  {
    if d == [] then 0 else
      assert IsDigit(d[|d| - 1]);
      10 * Value(d[..|d| - 1]) + (d[|d| - 1] as int - 48)
  }

  /** `web_num`. */
  function Num(v: nat): (d: seq<Byte>)
    ensures |d| > 0 && forall i :: 0 <= i < |d| ==> IsDigit(d[i])
  {
    if v < 10 then [48 + v] else Num(v / 10) + [48 + v % 10]
  }

  lemma {:induction false} NumReadsBack(v: nat)
    ensures Value(Num(v)) == v
  {
    if v >= 10 {
      NumReadsBack(v / 10);
      assert Num(v)[..|Num(v)| - 1] == Num(v / 10);
    }
  }

  /** A number below 10^n has at most `n` digits. */
  lemma {:induction false} NumIsShort(v: nat, n: nat, bound: nat)
    requires n > 0 && v < bound && bound <= TenTo(n)
    ensures |Num(v)| <= n
  {
    assert TenTo(1) == 10;
    if v >= 10 {
      NumIsShort(v / 10, n - 1, TenTo(n - 1));
    }
  }

  function TenTo(n: nat): nat { if n == 0 then 1 else 10 * TenTo(n - 1) }
}
