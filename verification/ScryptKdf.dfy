/** `scrypt`: the checks of its parameters, the parts of the working area and the whole derivation, for
    any PBKDF2 and any 64-byte core. */
module ScryptKdf {
  import opened Bytes
  import opened Powers
  import opened Scrypt
  import opened ScryptMix

  datatype Outcome = Done | BadParameter | NoMemory

  /** PBKDF2 with one round: password, salt and length. */
  type Derive = (seq<Byte>, seq<Byte>, nat) -> seq<Byte>

  // ---- The derivation, section 6 of RFC 7914 --------------------------------------------

  function WordOf(b: seq<Byte>): Word
    requires |b| == 4
  {
    b[0] as int + 0x100 * b[1] as int + 0x1_0000 * b[2] as int + 0x100_0000 * b[3] as int
  }

  /** Bytes seen as little-endian words. */
  function WordsOf(b: seq<Byte>): (w: seq<Word>)
    requires |b| % 4 == 0
    ensures |w| == |b| / 4
  {
    if b == [] then [] else [WordOf(b[..4])] + WordsOf(b[4..])
  }

  function BytesOf(w: seq<Word>): (b: seq<Byte>)
    ensures |b| == 4 * |w|
  {
    if w == [] then [] else BytesIn(w[0]) + BytesOf(w[1..])
  }

  function BytesIn(w: Word): (b: seq<Byte>)
    ensures |b| == 4
  {
    [w % 0x100, w / 0x100 % 0x100, w / 0x1_0000 % 0x100, w / 0x100_0000]
  }

  lemma WordReadsBack(b: seq<Byte>)
    requires |b| == 4
    ensures BytesIn(WordOf(b)) == b
  {
    var q2: nat := b[2] as int + 0x100 * b[3] as int;
    var q1: nat := b[1] as int + 0x100 * q2;
    assert WordOf(b) == b[0] as int + 0x100 * q1;
    assert WordOf(b) / 0x100 == q1 && WordOf(b) / 0x1_0000 == q2 && WordOf(b) / 0x100_0000 == b[3] as int;
  }

  /** Bytes stored as words are read back the same. */
  lemma {:induction false} BytesReadBack(b: seq<Byte>)
    requires |b| % 4 == 0
    ensures BytesOf(WordsOf(b)) == b
  {
    if b != [] {
      hide WordOf, BytesIn;
      BytesReadBack(b[4..]);
      WordReadsBack(b[..4]);
      var w := WordsOf(b);
      assert w[0] == WordOf(b[..4]) && w[1..] == WordsOf(b[4..]);
    }
  }

  /** The words of a state. */
  function Flat(bs: seq<Block>): (w: seq<Word>)
    ensures |w| == 16 * |bs|
  {
    if bs == [] then [] else Flat(bs[..|bs| - 1]) + bs[|bs| - 1]
  }

  /** Words read as a state of `m` blocks. */
  function StateOf(w: seq<Word>, m: nat): (bs: seq<Block>)
    requires |w| == 16 * m
    ensures |bs| == m
  {
    seq(m, i requires 0 <= i < m => BlockAt(w, 16 * i))
  }

  /** The states of `r` block pairs that `w` consists of, each mixed on its own. */
  function Mixed(core: Core, w: seq<Word>, n: nat, r: nat): (x: seq<Word>)
    requires r > 0 && n > 0
    ensures |x| <= |w|
  {
    if |w| < 32 * r then [] else
      var b := |w| - 32 * r;
      Mixed(core, w[..b], n, r) + Flat(RoMix(core, StateOf(w[b..], 2 * r), n))
  }

  ghost predicate ExactLength(derive: Derive) {
    forall p, s, len {:trigger derive(p, s, len)} :: |derive(p, s, len)| == len
  }

  /** The key, with `size` bytes of state between the two uses of PBKDF2. */
  function KeyOfSize(core: Core, derive: Derive, pw: seq<Byte>, salt: seq<Byte>, n: nat, r: nat, size: nat,
                     len: nat): seq<Byte>
    requires r > 0 && n > 0 && ExactLength(derive) && size % 4 == 0
  {
    derive(pw, BytesOf(Mixed(core, WordsOf(derive(pw, salt, size)), n, r)), len)
  }

  /** scrypt(P, S, N, r, p, dkLen). */
  function Key(core: Core, derive: Derive, pw: seq<Byte>, salt: seq<Byte>, n: nat, r: nat, p: nat, len: nat): seq<Byte>
    requires r > 0 && n > 0 && ExactLength(derive)
  {
    assert 128 * r * p == 4 * (p * (32 * r));
    KeyOfSize(core, derive, pw, salt, n, r, 128 * r * p, len)
  }

  // ---- The working area -----------------------------------------------------------------

  /** A state is in place exactly when its words are. */
  lemma {:induction false} AtIsFlat(mem: seq<Word>, off: nat, bs: seq<Block>)
    requires off + 16 * |bs| <= |mem|
    ensures At(mem, off, bs) <==> mem[off..off + 16 * |bs|] == Flat(bs)
  {
    if bs != [] {
      hide At, Flat;
      var m := |bs| - 1;
      AtIsFlat(mem, off, bs[..m]);
      AtOneLess(mem, off, bs);
      FlatOneLess(bs);
      JoinedAgree(mem[off..off + 16 * m], BlockAt(mem, off + 16 * m), Flat(bs[..m]), bs[m]);
      assert mem[off..off + 16 * |bs|] == mem[off..off + 16 * m] + BlockAt(mem, off + 16 * m);
    }
  }

  lemma AtOneLess(mem: seq<Word>, off: nat, bs: seq<Block>)
    requires bs != [] && off + 16 * |bs| <= |mem|
    ensures At(mem, off, bs) <==> At(mem, off, bs[..|bs| - 1]) && BlockAt(mem, off + 16 * (|bs| - 1)) == bs[|bs| - 1]
  {
    hide BlockAt;
    var init := bs[..|bs| - 1];
    assert forall i :: 0 <= i < |init| ==> init[i] == bs[i];
  }

  lemma FlatOneLess(bs: seq<Block>)
    requires bs != []
    ensures Flat(bs) == Flat(bs[..|bs| - 1]) + bs[|bs| - 1]
  {
  }

  lemma JoinedAgree(a: seq<Word>, b: seq<Word>, c: seq<Word>, d: seq<Word>)
    requires |a| == |c| && |b| == |d|
    ensures a + b == c + d <==> a == c && b == d
  {
    if a + b == c + d {
      assert a == (a + b)[..|a|] && c == (c + d)[..|a|] && b == (a + b)[|a|..] && d == (c + d)[|a|..];
    }
  }

  lemma StateIsAt(mem: seq<Word>, off: nat, w: seq<Word>, m: nat)
    requires |w| == 16 * m && off + 16 * m <= |mem| && mem[off..off + 16 * m] == w
    ensures At(mem, off, StateOf(w, m))
  {
    forall i | 0 <= i < m ensures BlockAt(mem, off + 16 * i) == StateOf(w, m)[i] {
      SliceOfSlice(mem, off, 16 * m, 16 * i, 16);
    }
  }

  /** `scrypt_scratch_bytes`, before it is cut to 64 bits. */
  function ScratchBytes(n: nat, r: nat, p: nat): nat { 128 * r * n + 128 * r * p + 128 * r * 2 }

  predicate Acceptable(n: nat, r: nat, p: nat, outlen: nat) {
    n > 0 && And(n, n - 1) == 0 && r > 0 && p > 0 && outlen > 0
  }

  /** A power of two below 2^32 has an exponent below 32. */
  lemma Exponent(n: nat) returns (k: nat)
    requires 0 < n < U32 && And(n, n - 1) == 0
    ensures k < 32 && n == Pow2(k)
  {
    PowerOfTwoTest(n);
    k :| IsPower(n, k);
    if k >= 32 {
      Pow2Of32();
      if k > 32 {
        Pow2Grows(32, k);
      }
    }
  }

  /** Words read as bytes into the working area. */
  method LoadWords(a: array<Word>, w: seq<Word>)
    requires |w| <= a.Length
    modifies a
    ensures a[..|w|] == w
  {
    for i := 0 to |w|
      invariant a[..i] == w[..i]
    {
      a[i] := w[i];
    }
  }

  /** The loop over the `p` states of B, each mixed with the same table and Y. */
  method MixAll(core: Core, a: array<Word>, n: nat, r: nat, p: nat, ghost k: nat, ghost w: seq<Word>)
    requires k <= 32 && n == Pow2(k) && 128 * r < U32 && (n - 1) * (32 * r) < U32 && r > 0
    requires |w| == p * (32 * r) && |w| + n * (32 * r) + 64 * r <= a.Length && a[..|w|] == w
    modifies a
    ensures a[..|w|] == Mixed(core, w, n, r)
  {
    hide Mixed, StateOf, RoMix;
    MixedNone(core, w[..0], n, r);
    var v := p * (32 * r);
    var y := v + n * (32 * r);
    var i, b := 0, 0;
    while i < p
      invariant i <= p && b == i * (32 * r) && b <= |w|
      invariant a[..b] == Mixed(core, w[..b], n, r) && a[b..|w|] == w[b..]
    {
      Below(i, p, 32 * r);
      NextPlace(i, 32 * r);
      MixNext(core, a, n, r, k, b, v, y, w);
      i, b := i + 1, b + 32 * r;
    }
    assert w[..b] == w;
  }

  lemma NextPlace(i: nat, s: nat)
    ensures (i + 1) * s == i * s + s
  {
  }

  lemma MixedNone(core: Core, w: seq<Word>, n: nat, r: nat)
    requires r > 0 && n > 0 && w == []
    ensures Mixed(core, w, n, r) == []
  {
  }

  lemma MixedStep(core: Core, w: seq<Word>, n: nat, r: nat, b: nat)
    requires r > 0 && n > 0 && b + 32 * r <= |w|
    ensures Mixed(core, w[..b + 32 * r], n, r)
         == Mixed(core, w[..b], n, r) + Flat(RoMix(core, StateOf(w[b..b + 32 * r], 2 * r), n))
  {
    hide RoMix, Flat, StateOf;
    var u := w[..b + 32 * r];
    assert u[..b] == w[..b] && u[b..] == w[b..b + 32 * r];
  }

  /** One round of it, at word `b`. */
  method MixNext(core: Core, a: array<Word>, n: nat, r: nat, ghost k: nat, b: nat, v: nat, y: nat, ghost w: seq<Word>)
    requires k <= 32 && n == Pow2(k) && Layout(a.Length, b, v, y, r, n) && |w| == v
    requires a[..b] == Mixed(core, w[..b], n, r) && a[b..v] == w[b..]
    modifies a
    ensures a[..b + 32 * r] == Mixed(core, w[..b + 32 * r], n, r)
    ensures a[b + 32 * r..v] == w[b + 32 * r..]
  {
    hide RoMix, At, OnlyTwo, Mixed, StateOf, Flat, Entry;
    ghost var s, bs, mem := 32 * r, StateOf(w[b..b + 32 * r], 2 * r), a[..];
    SlicesAgree(mem, w, b, s);
    StateIsAt(mem, b, w[b..b + s], 2 * r);
    RoMixInPlace(core, a, b, v, y, r, n, k, bs);
    AtIsFlat(a[..], b, RoMix(core, bs, n));
    MixedStep(core, w, n, r, b);
    OutsideStays(mem, a[..], b, s, v);
    assert a[..b + s] == a[..b] + a[b..b + s];
  }

  lemma SlicesAgree(mem: seq<Word>, w: seq<Word>, b: nat, s: nat)
    requires b + s <= |w| <= |mem| && mem[b..|w|] == w[b..]
    ensures mem[b..b + s] == w[b..b + s] && mem[b + s..|w|] == w[b + s..]
  {
    assert mem[b..b + s] == mem[b..|w|][..s] && w[b..b + s] == w[b..][..s];
    assert mem[b + s..|w|] == mem[b..|w|][s..] && w[b + s..] == w[b..][s..];
  }

  lemma OutsideStays(m0: seq<Word>, m1: seq<Word>, b: nat, s: nat, v: nat)
    requires b + s <= v <= |m0| && OnlyTwo(m0, m1, b, s, v, |m0| - v)
    ensures m1[..b] == m0[..b] && m1[b + s..v] == m0[b + s..v]
  {
  }

  /** The size that `scrypt` tests against, in 64 bits. */
  function Need(n: nat, r: nat, p: nat): nat { ScratchBytes(n, r, p) % U64 }

  /** An area of `length` bytes passes the size test. */
  predicate Passes(length: nat, n: nat, r: nat, p: nat) { length >= Need(n, r, p) }

  /** The size test lets only areas of the full size pass if and only if that size is below 2^64. */
  lemma GuardIsRightIff(n: nat, r: nat, p: nat)
    ensures (forall length: nat :: Passes(length, n, r, p) ==> length >= ScratchBytes(n, r, p))
       <==> ScratchBytes(n, r, p) < U64
  {
    hide ScratchBytes;
    assert Passes(Need(n, r, p), n, r, p);
  }

  /** Sizes that fit are tested exactly, and the parts of B, V and XY lie inside an area that passes. */
  lemma SizesFit(n: nat, r: nat, p: nat)
    requires Fits(n, r, p) && n > 0 && r > 0 && p > 0
    ensures Need(n, r, p) == ScratchBytes(n, r, p)
    ensures AllBytes(r, p) == 128 * r * p == 4 * (p * (32 * r))
    ensures 4 * (p * (32 * r) + n * (32 * r) + 64 * r) == ScratchBytes(n, r, p)
  {
    SmallRemainder(128 * r * p);
    assert 128 * r * p == 4 * (p * (32 * r));
    assert 128 * r * n == 4 * (n * (32 * r));
    assert n * (32 * r) == (n - 1) * (32 * r) + 32 * r;
    SmallSize(ScratchBytes(n, r, p));
  }

  lemma SmallSize(x: nat)
    requires x < U64
    ensures x % U64 == x
  {
  }

  /** Two entries of 128 * 2^25 bytes: their offsets are right, but a state of that size is copied as 0
      bytes, and PBKDF2 is asked for none. */
  lemma StateOfNoBytes()
    ensures forall i :: 0 <= i < 2 ==> Offset(i, 0x200_0000) == i * (32 * 0x200_0000)
    ensures StateBytes(0x200_0000) == 0 && AllBytes(0x200_0000, 1) == 0
  {
  }

  /** From r = 2^27 on even the words of a state can be cut to none. */
  lemma StateOfNoWords()
    ensures Words(0x800_0000) == 0
  {
  }

  /** With ordinary states and 2^28 entries, entry 2^27 gets the place of entry 0. */
  lemma EntriesCollide()
    ensures Offset(0x800_0000, 1) == Offset(0, 1) == 0
  {
  }

  /** A request whose size is 2^64 bytes passes the test with an area of any size. */
  lemma SizeOfNothing()
    ensures Acceptable(0x200_0000, 0x8000_0000, 0x1FF_FFFE, 1)
    ensures ScratchBytes(0x200_0000, 0x8000_0000, 0x1FF_FFFE) == U64
    ensures Need(0x200_0000, 0x8000_0000, 0x1FF_FFFE) == 0
  {
    assert Pow2(5) == 32;
    Pow2Adds(5, 5);
    Pow2Adds(10, 10);
    Pow2Adds(20, 5);
    PowerOfTwoTest(0x200_0000);
    assert IsPower(0x200_0000, 25);
  }

  /** `scrypt`: refused exactly for the parameters and areas it may not be used with, and else the key
      of RFC 7914. The bytes of B are the words at the start of the working area. */
  method DeriveKey(core: Core, derive: Derive, pw: seq<Byte>, salt: seq<Byte>, n: nat, r: nat, p: nat,
                   out: array?<Byte>, outlen: nat, scratch: array?<Word>)
    returns (rc: Outcome)
    requires ExactLength(derive) && n < U32 && r < U32 && p < U32
    requires out != null ==> out.Length == outlen
    requires Acceptable(n, r, p, outlen) && scratch != null && Passes(4 * scratch.Length, n, r, p) ==> Fits(n, r, p)
    modifies out, scratch
    ensures rc == BadParameter <==> !Acceptable(n, r, p, outlen) || out == null
    ensures rc == NoMemory <==> Acceptable(n, r, p, outlen) && out != null
                                && (scratch == null || !Passes(4 * scratch.Length, n, r, p))
    ensures rc == Done ==> 4 * scratch.Length >= ScratchBytes(n, r, p)
    ensures rc == Done ==> out[..] == Key(core, derive, pw, salt, n, r, p, outlen)
    ensures rc != Done && out != null ==> out[..] == old(out[..])
  {
    hide ScratchBytes, KeyOfSize, And, AllBytes, Fits;
    if n == 0 || And(n, n - 1) != 0 || r == 0 || p == 0 || out == null || outlen == 0 {
      return BadParameter;
    }
    if scratch == null || !Passes(4 * scratch.Length, n, r, p) {
      return NoMemory;
    }
    SizesFit(n, r, p);
    WhatFits(n, r, p);
    ghost var k := Exponent(n);
    DeriveInto(core, derive, pw, salt, n, r, p, k, AllBytes(r, p), scratch, out);
    rc := Done;
  }

  lemma WhatFits(n: nat, r: nat, p: nat)
    requires Fits(n, r, p)
    ensures 128 * r < U32 && (n - 1) * (32 * r) < U32
  {
  }

  /** The part of `scrypt` past its checks. */
  method DeriveInto(core: Core, derive: Derive, pw: seq<Byte>, salt: seq<Byte>, n: nat, r: nat, p: nat, ghost k: nat,
                    size: nat, a: array<Word>, out: array<Byte>)
    requires ExactLength(derive) && k <= 32 && n == Pow2(k) && 128 * r < U32 && (n - 1) * (32 * r) < U32 && r > 0
    requires size == 4 * (p * (32 * r)) && p * (32 * r) + n * (32 * r) + 64 * r <= a.Length
    modifies a, out
    ensures out[..] == KeyOfSize(core, derive, pw, salt, n, r, size, out.Length)
  {
    hide Mixed;
    var w := WordsOf(derive(pw, salt, size));
    LoadWords(a, w);
    MixAll(core, a, n, r, p, k, w);
    var key := derive(pw, BytesOf(a[..size / 4]), out.Length);
    forall i | 0 <= i < out.Length {
      out[i] := key[i];
    }
    assert out[..] == key;
  }

  // ---- What PBKDF2 is asked -------------------------------------------------------------

  /** A stand-in for PBKDF2 that gives back what it is asked with: password, then salt, then zeros. */
  function Recorder(p: seq<Byte>, s: seq<Byte>, len: nat): (out: seq<Byte>)
    ensures |out| == len
  {
    seq(len, i requires 0 <= i < len => if i < |p| then p[i] else if i < |p| + |s| then s[i - |p|] else 0)
  }

  /** PBKDF2 is asked twice, both times with the password: first for the state with the salt given, then
      for the key with the mixed state as salt. */
  lemma WhatIsAsked(core: Core, pw: seq<Byte>, salt: seq<Byte>, n: nat, r: nat, p: nat, len: nat)
    requires r > 0 && n > 0
    ensures var state := Recorder(pw, salt, 128 * r * p);
            && 128 * r * p == 4 * (p * (32 * r))
            && Key(core, (a, b, k) => Recorder(a, b, k), pw, salt, n, r, p, len) ==
                 Recorder(pw, BytesOf(Mixed(core, WordsOf(state), n, r)), len)
            && (|pw| + |salt| <= 128 * r * p ==> state[..|pw|] == pw && state[|pw|..|pw| + |salt|] == salt)
  {
    hide Mixed, BytesOf, WordsOf;
    assert 128 * r * p == 4 * (p * (32 * r));
  }

  /** Word `k` of some bytes: four of them, the low one first. */
  lemma {:induction false} WordsAreLittle(b: seq<Byte>, k: nat)
    requires |b| % 4 == 0 && 4 * k + 4 <= |b|
    ensures WordsOf(b)[k] == b[4 * k] as int + 256 * b[4 * k + 1] as int + 65536 * b[4 * k + 2] as int
                             + 16777216 * b[4 * k + 3] as int
  {
    if k > 0 {
      WordsAreLittle(b[4..], k - 1);
    }
  }

  /** Each state is mixed on its own, and the mixed states keep their order. */
  lemma {:induction false} StatesAreMixed(core: Core, states: seq<seq<Block>>, n: nat, r: nat)
    requires r > 0 && n > 0 && forall i :: 0 <= i < |states| ==> |states[i]| == 2 * r
    ensures Mixed(core, AllFlat(states), n, r) == AllFlat(seq(|states|, i requires 0 <= i < |states| =>
                                                                RoMix(core, states[i], n)))
    decreases |states|
  {
    hide RoMix;
    var mixed := seq(|states|, i requires 0 <= i < |states| => RoMix(core, states[i], n));
    if states != [] {
      var m := |states| - 1;
      StatesAreMixed(core, states[..m], n, r);
      assert mixed[..m] == seq(m, i requires 0 <= i < m => RoMix(core, states[..m][i], n));
      LastIsMixed(core, AllFlat(states[..m]), states[m], n, r);
    }
  }

  lemma LastIsMixed(core: Core, w: seq<Word>, bs: seq<Block>, n: nat, r: nat)
    requires r > 0 && n > 0 && |bs| == 2 * r
    ensures Mixed(core, w + Flat(bs), n, r) == Mixed(core, w, n, r) + Flat(RoMix(core, bs, n))
  {
    hide RoMix;
    var all := w + Flat(bs);
    assert all[..|all| - 32 * r] == w && all[|all| - 32 * r..] == Flat(bs);
    StateIsFlat(bs);
  }

  lemma {:induction false} StateIsFlat(bs: seq<Block>)
    ensures StateOf(Flat(bs), |bs|) == bs
  {
    forall i | 0 <= i < |bs| ensures StateOf(Flat(bs), |bs|)[i] == bs[i] {
      BlockOfFlat(bs, i);
    }
  }

  lemma {:induction false} BlockOfFlat(bs: seq<Block>, i: nat)
    requires i < |bs|
    ensures Flat(bs)[16 * i..16 * i + 16] == bs[i]
    decreases |bs|
  {
    var m := |bs| - 1;
    var w := Flat(bs[..m]);
    assert Flat(bs) == w + bs[m];
    if i < m {
      BlockOfFlat(bs[..m], i);
      assert Flat(bs)[16 * i..16 * i + 16] == w[16 * i..16 * i + 16];
    }
  }

  function AllFlat(states: seq<seq<Block>>): seq<Word> {
    if states == [] then [] else AllFlat(states[..|states| - 1]) + Flat(states[|states| - 1])
  }

  /** The parameters taken: a power of two for N, and neither blocks, states nor key empty. */
  lemma ParametersTaken(n: nat, r: nat, p: nat, outlen: nat)
    ensures Acceptable(n, r, p, outlen) <==> (exists k: nat :: IsPower(n, k)) && r >= 1 && p >= 1 && outlen >= 1
  {
    hide And;
    if n > 0 {
      PowerOfTwoTest(n);
    } else {
      assert forall k: nat :: IsPower(n, k) ==> Pow2(k) > 0;
    }
  }
}
