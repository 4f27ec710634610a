/** Bytes and the few byte-string notions the editor and the browser share. */
module Bytes {

  type Byte = x: int | 0 <= x < 256

  const NEWLINE: Byte := 10

  predicate IsDigit(c: Byte) { 48 <= c <= 57 }

  function Lower(c: Byte): Byte {
    if 65 <= c <= 90 then c + 32 else c
  }

  function LowerAll(s: seq<Byte>): (r: seq<Byte>)
    ensures |r| == |s| && forall i :: 0 <= i < |s| ==> r[i] == Lower(s[i])
  {
    if s == [] then [] else [Lower(s[0])] + LowerAll(s[1..])
  }

  /** The place of the first `c`, or the length if there is none. */
  function Find(s: seq<Byte>, c: Byte): (i: nat)
    ensures i <= |s| && (i < |s| ==> s[i] == c) && c !in s[..i]
  {
    if s == [] || s[0] == c then 0 else 1 + Find(s[1..], c)
  }

  /** The bytes of a C string: everything before the first zero. */
  function UpToNul(s: seq<Byte>): (r: seq<Byte>)
    ensures |r| <= |s|
  {
    if s == [] || s[0] == 0 then [] else [s[0]] + UpToNul(s[1..])
  }

  lemma {:induction false} NoNul(s: seq<Byte>)
    requires 0 !in s
    ensures UpToNul(s) == s
  {
    if s != [] {
      NoNul(s[1..]);
    }
  }

  function Ascii(s: string): (r: seq<Byte>)
    ensures |r| == |s|
  {
    seq(|s|, i requires 0 <= i < |s| => s[i] as int % 256)
  }

  lemma SlicesEqual<T>(s: seq<T>, t: seq<T>, lo: nat, at: nat, n: nat)
    requires lo + n <= |s| && at + n <= |t| && forall k :: lo <= k < lo + n ==> s[k] == t[k - lo + at]
    ensures s[lo..lo + n] == t[at..at + n]
  {
  }

  lemma SliceOfSlice<T>(s: seq<T>, off: nat, n: nat, lo: nat, len: nat)
    requires off + n <= |s| && lo + len <= n
    ensures s[off..off + n][lo..lo + len] == s[off + lo..off + lo + len]
  {
    var x, y := s[off..off + n][lo..lo + len], s[off + lo..off + lo + len];
    forall k | 0 <= k < len ensures x[k] == y[k] {
      assert x[k] == s[off..off + n][lo + k];
    }
  }

  lemma ThreeParts<T>(s: seq<T>, a: nat, b: nat)
    requires a <= b <= |s|
    ensures s == s[..a] + s[a..b] + s[b..]
  {
  }

  method CopyInto(a: array<Byte>, at: nat, data: seq<Byte>)
    requires at + |data| <= a.Length
    modifies a
    ensures a[..at + |data|] == old(a[..at]) + data
    ensures a[at + |data|..] == old(a[at + |data|..])
  {
    for i := 0 to |data|
      invariant a[..at + i] == old(a[..at]) + data[..i]
      invariant a[at + i..] == old(a[at + i..])
    {
      a[at + i] := data[i];
    }
  }
}
