/** The mixing of scrypt in place: one working area of words, in which the state B, the table V and
    the space XY lie side by side. */
module ScryptMix {
  import opened Powers
  import opened Scrypt

  /** The block of 16 words at `o`. */
  function BlockAt(mem: seq<Word>, o: nat): Block
    requires o + 16 <= |mem|
  {
    mem[o..o + 16]
  }

  /** The words from `off` on are the blocks `bs`. */
  ghost predicate At(mem: seq<Word>, off: nat, bs: seq<Block>) {
    off + 16 * |bs| <= |mem| && forall i :: 0 <= i < |bs| ==> BlockAt(mem, off + 16 * i) == bs[i]
  }

  /** Nothing changed but the `n` words from `lo` on. */
  ghost predicate Only(mem: seq<Word>, mem': seq<Word>, lo: nat, n: nat) {
    |mem| == |mem'| && forall k :: 0 <= k < |mem| && !(lo <= k < lo + n) ==> mem'[k] == mem[k]
  }

  ghost predicate OnlyTwo(mem: seq<Word>, mem': seq<Word>, lo: nat, n: nat, hi: nat, m: nat) {
    |mem| == |mem'| && forall k :: 0 <= k < |mem| && !(lo <= k < lo + n) && !(hi <= k < hi + m) ==> mem'[k] == mem[k]
  }

  predicate Apart(a: nat, n: nat, b: nat, m: nat) { a + n <= b || b + m <= a }

  lemma AtElsewhere(mem: seq<Word>, mem': seq<Word>, lo: nat, n: nat, off: nat, bs: seq<Block>)
    requires At(mem, off, bs) && Only(mem, mem', lo, n) && Apart(lo, n, off, 16 * |bs|)
    ensures At(mem', off, bs)
  {
    forall i | 0 <= i < |bs| ensures BlockAt(mem', off + 16 * i) == bs[i] {
      assert BlockAt(mem', off + 16 * i) == BlockAt(mem, off + 16 * i);
    }
  }

  lemma AtBlock(mem: seq<Word>, off: nat, bs: seq<Block>, i: nat)
    requires At(mem, off, bs) && i < |bs|
    ensures off + 16 * |bs| <= |mem| && BlockAt(mem, off + 16 * i) == bs[i]
  {
  }

  lemma OnlyNothing(mem: seq<Word>, lo: nat, n: nat)
    ensures Only(mem, mem, lo, n)
  {
  }

  /** One block stored among others. */
  lemma AtStored(mem: seq<Word>, mem': seq<Word>, off: nat, bs: seq<Block>, i: nat, b: Block)
    requires At(mem, off, bs) && i < |bs|
    requires Only(mem, mem', off + 16 * i, 16) && BlockAt(mem', off + 16 * i) == b
    ensures At(mem', off, bs[i := b])
  {
    forall m | 0 <= m < |bs| && m != i ensures BlockAt(mem', off + 16 * m) == bs[m] {
      assert BlockAt(mem', off + 16 * m) == BlockAt(mem, off + 16 * m);
    }
  }

  lemma OnlyTwice(m0: seq<Word>, m1: seq<Word>, m2: seq<Word>, lo: nat, n: nat, lo1: nat, n1: nat, lo2: nat, n2: nat)
    requires Only(m0, m1, lo1, n1) && Only(m1, m2, lo2, n2)
    requires lo <= lo1 && lo1 + n1 <= lo + n && lo <= lo2 && lo2 + n2 <= lo + n
    ensures Only(m0, m2, lo, n)
  {
  }

  /** `sc_memcpy` of 64 bytes into the working area. */
  method Store(a: array<Word>, o: nat, b: Block)
    requires o + 16 <= a.Length
    modifies a
    ensures Only(old(a[..]), a[..], o, 16) && BlockAt(a[..], o) == b
  {
    for k := 0 to 16
      invariant forall i :: 0 <= i < a.Length && !(o <= i < o + k) ==> a[i] == old(a[i])
      invariant forall i :: 0 <= i < k ==> a[o + i] == b[i]
    {
      a[o + k] := b[k];
    }
  }

  /** The words of a block combined with 16 words of the working area. */
  method Combine(x: Block, a: array<Word>, o: nat) returns (y: Block)
    requires o + 16 <= a.Length
    ensures y == XorBlock(x, BlockAt(a[..], o))
  {
    y := x;
    for k := 0 to 16
      invariant forall i :: 0 <= i < 16 ==> y[i] == if i < k then XorWord(x[i], a[o + i]) else x[i]
    {
      y := y[k := XorWord(x[k], a[o + k])];
    }
  }

  /** The blocks `block_mix` puts in Y. */
  function Chains(core: Core, bs: seq<Block>, n: nat): (r: seq<Block>)
    requires |bs| > 0 && n <= |bs|
    ensures |r| == n
  {
    seq(n, i requires 0 <= i < n => Chain(core, bs, i + 1))
  }

  /** The first loop of `block_mix`: the chain's blocks, in order, to Y. */
  method FillY(core: Core, a: array<Word>, b: nat, y: nat, r: nat, ghost bs: seq<Block>)
    requires r > 0 && |bs| == 2 * r && At(a[..], b, bs)
    requires y + 32 * r <= a.Length && Apart(b, 32 * r, y, 32 * r)
    modifies a
    ensures Only(old(a[..]), a[..], y, 32 * r) && At(a[..], b, bs) && At(a[..], y, Chains(core, bs, 2 * r))
  {
    hide At, Only, Chain;
    AtBlock(a[..], b, bs, 2 * r - 1);
    OnlyNothing(a[..], y, 32 * r);
    var x: Block := a[b + 16 * (2 * r - 1)..b + 16 * (2 * r - 1) + 16];
    ChainStarts(core, bs);
    AtNone(a[..], y, Chains(core, bs, 0));
    var i := 0;
    while i < 2 * r
      invariant i <= 2 * r && x == Chain(core, bs, i)
      invariant Only(old(a[..]), a[..], y, 32 * r) && At(a[..], b, bs) && At(a[..], y, Chains(core, bs, i))
    {
      ghost var mem := a[..];
      AtBlock(mem, b, bs, i);
      x := Combine(x, a, b + 16 * i);
      x := core(x);
      ChainStep(core, bs, i);
      Store(a, y + 16 * i, x);
      OnlyTwice(old(a[..]), mem, a[..], y, 32 * r, y, 32 * r, y + 16 * i, 16);
      AtElsewhere(mem, a[..], y + 16 * i, 16, b, bs);
      AtElsewhere(mem, a[..], y + 16 * i, 16, y, Chains(core, bs, i));
      AtOneMore(a[..], y, Chains(core, bs, i), x);
      assert Chains(core, bs, i + 1) == Chains(core, bs, i) + [x];
      i := i + 1;
    }
  }

  lemma ChainStarts(core: Core, bs: seq<Block>)
    requires |bs| > 0
    ensures Chain(core, bs, 0) == bs[|bs| - 1]
  {
  }

  lemma ChainStep(core: Core, bs: seq<Block>, i: nat)
    requires i < |bs|
    ensures Chain(core, bs, i + 1) == core(XorBlock(Chain(core, bs, i), bs[i]))
  {
  }

  lemma AtNone(mem: seq<Word>, off: nat, bs: seq<Block>)
    requires bs == [] && off <= |mem|
    ensures At(mem, off, bs)
  {
  }

  lemma AtOneMore(mem: seq<Word>, off: nat, bs: seq<Block>, b: Block)
    requires At(mem, off, bs) && off + 16 * |bs| + 16 <= |mem| && BlockAt(mem, off + 16 * |bs|) == b
    ensures At(mem, off, bs + [b])
  {
  }

  /** The blocks in place after `i` rounds of the second loop of `block_mix`. */
  function Shuffled(bs: seq<Block>, ys: seq<Block>, r: nat, i: nat): (s: seq<Block>)
    requires |bs| == 2 * r && |ys| == 2 * r && i <= r
    ensures |s| == 2 * r
  {
    seq(2 * r, m requires 0 <= m < 2 * r =>
      if m < i then ys[2 * m] else if r <= m < r + i then ys[2 * (m - r) + 1] else bs[m])
  }

  /** `block_mix`. */
  method MixBlocks(core: Core, a: array<Word>, b: nat, y: nat, r: nat, ghost bs: seq<Block>)
    requires r > 0 && |bs| == 2 * r && At(a[..], b, bs)
    requires y + 32 * r <= a.Length && Apart(b, 32 * r, y, 32 * r)
    modifies a
    ensures At(a[..], b, BlockMix(core, bs))
    ensures OnlyTwo(old(a[..]), a[..], b, 32 * r, y, 32 * r)
  {
    hide At, Only, OnlyTwo, Chains, Shuffled, BlockMix;
    FillY(core, a, b, y, r, bs);
    ghost var ys, filled := Chains(core, bs, 2 * r), a[..];
    ShuffledEnds(core, bs, r);
    OnlyNothing(filled, b, 32 * r);
    var i := 0;
    while i < r
      invariant i <= r && Only(filled, a[..], b, 32 * r)
      invariant At(a[..], y, ys) && At(a[..], b, Shuffled(bs, ys, r, i))
    {
      MoveBlock(a, b, y, r, i, 2 * i, Shuffled(bs, ys, r, i), ys, filled);
      MoveBlock(a, b, y, r, i + r, 2 * i + 1, Shuffled(bs, ys, r, i)[i := ys[2 * i]], ys, filled);
      ShuffledStep(bs, ys, r, i);
      i := i + 1;
    }
    OnlyBoth(old(a[..]), filled, a[..], y, b, 32 * r);
  }

  lemma ShuffledEnds(core: Core, bs: seq<Block>, r: nat)
    requires r > 0 && |bs| == 2 * r
    ensures var ys := Chains(core, bs, 2 * r);
            Shuffled(bs, ys, r, 0) == bs && Shuffled(bs, ys, r, r) == BlockMix(core, bs)
  {
    var ys := Chains(core, bs, 2 * r);
    assert Shuffled(bs, ys, r, 0) == bs;
    assert Shuffled(bs, ys, r, r) == BlockMix(core, bs);
  }

  lemma ShuffledStep(bs: seq<Block>, ys: seq<Block>, r: nat, i: nat)
    requires |bs| == 2 * r && |ys| == 2 * r && i < r
    ensures Shuffled(bs, ys, r, i)[i := ys[2 * i]][i + r := ys[2 * i + 1]] == Shuffled(bs, ys, r, i + 1)
  {
  }

  lemma OnlyBoth(m0: seq<Word>, m1: seq<Word>, m2: seq<Word>, lo1: nat, lo2: nat, n: nat)
    requires Only(m0, m1, lo1, n) && Only(m1, m2, lo2, n)
    ensures OnlyTwo(m0, m2, lo2, n, lo1, n)
  {
  }

  /** One block of Y copied over block `to` of the state. */
  method MoveBlock(a: array<Word>, b: nat, y: nat, r: nat, to: nat, from: nat, ghost cur: seq<Block>,
                   ghost ys: seq<Block>, ghost filled: seq<Word>)
    requires |cur| == 2 * r && |ys| == 2 * r && to < 2 * r && from < 2 * r
    requires At(a[..], b, cur) && At(a[..], y, ys) && Apart(b, 32 * r, y, 32 * r)
    requires Only(filled, a[..], b, 32 * r)
    modifies a
    ensures At(a[..], b, cur[to := ys[from]]) && At(a[..], y, ys) && Only(filled, a[..], b, 32 * r)
  {
    ghost var mem := a[..];
    var x: Block := a[y + 16 * from..y + 16 * from + 16];
    assert BlockAt(mem, y + 16 * from) == ys[from];
    Store(a, b + 16 * to, x);
    AtStored(mem, a[..], b, cur, to, x);
    AtElsewhere(mem, a[..], b + 16 * to, 16, y, ys);
    OnlyTwice(filled, mem, a[..], b, 32 * r, b, 32 * r, b + 16 * to, 16);
  }

  // ---- The 32-bit products --------------------------------------------------------------

  /** The words of a state, as `ro_mix` computes them. */
  function Words(r: nat): nat { 32 * r % U32 }

  /** The bytes of a state that `ro_mix` copies. */
  function StateBytes(r: nat): nat { Words(r) * 4 % U32 }

  /** The offset of entry `i` of the table. */
  function Offset(i: nat, r: nat): nat { i * Words(r) % U32 }

  /** The offset of block `i` of a state. */
  function BlockOffset(i: nat): nat { i * 16 % U32 }

  /** The bytes that `scrypt` asks PBKDF2 for, and gives it back. */
  function AllBytes(r: nat, p: nat): nat { 128 * r * p % U32 }

  /** No 32-bit product of `block_mix`, `ro_mix` and `scrypt` is cut off. */
  predicate ProductsAreRight(n: nat, r: nat, p: nat) {
    && Words(r) == 32 * r && StateBytes(r) == 128 * r && AllBytes(r, p) == 128 * r * p
    && (forall i :: 0 <= i < n ==> Offset(i, r) == i * (32 * r))
    && (forall i :: 0 <= i < 2 * r ==> BlockOffset(i) == i * 16)
  }

  /** What a caller can test. */
  predicate Fits(n: nat, r: nat, p: nat) {
    128 * r < U32 && 128 * r * p < U32 && (n - 1) * (32 * r) < U32
  }

  /** The products are right for exactly the sizes that fit. */
  lemma ProductsAreRightIff(n: nat, r: nat, p: nat)
    requires n > 0
    ensures ProductsAreRight(n, r, p) <==> Fits(n, r, p)
  {
    hide Offset;
    if Fits(n, r, p) {
      forall i | 0 <= i < n ensures Offset(i, r) == i * (32 * r) {
        OffsetIsRight(n, r, i);
      }
    }
    if ProductsAreRight(n, r, p) {
      assert Offset(n - 1, r) == (n - 1) * (32 * r);
      OffsetIsCut(n - 1, r);
    }
  }

  lemma OffsetIsCut(i: nat, r: nat)
    ensures Offset(i, r) < U32
  {
  }

  lemma OffsetIsRight(n: nat, r: nat, i: nat)
    requires i < n && 128 * r < U32 && (n - 1) * (32 * r) < U32
    ensures Offset(i, r) == i * (32 * r)
  {
    SmallRemainder(32 * r);
    if i < n - 1 {
      Below(i, n - 1, 32 * r);
    }
    SmallRemainder(i * (32 * r));
  }

  // ---- ROMix ----------------------------------------------------------------------------

  /** `sc_memcpy` of a whole state of `bytes` bytes: every block of it copied to `to`. */
  method CopyState(a: array<Word>, to: nat, b: nat, bytes: nat, ghost r: nat, ghost bs: seq<Block>)
    requires bytes == 128 * r && |bs| == 2 * r && At(a[..], b, bs) && to + 32 * r <= a.Length
             && Apart(to, 32 * r, b, 32 * r)
    modifies a
    ensures At(a[..], to, bs) && At(a[..], b, bs) && Only(old(a[..]), a[..], to, 32 * r)
  {
    hide At, Only;
    AtNone(a[..], to, bs[..0]);
    OnlyNothing(a[..], to, 32 * r);
    for i := 0 to bytes / 64
      invariant At(a[..], to, bs[..i]) && At(a[..], b, bs) && Only(old(a[..]), a[..], to, 32 * r)
    {
      ghost var mem := a[..];
      AtBlock(mem, b, bs, i);
      var x: Block := a[b + 16 * i..b + 16 * i + 16];
      Store(a, to + 16 * i, x);
      OnlyTwice(old(a[..]), mem, a[..], to, 32 * r, to, 32 * r, to + 16 * i, 16);
      AtElsewhere(mem, a[..], to + 16 * i, 16, b, bs);
      AtElsewhere(mem, a[..], to + 16 * i, 16, to, bs[..i]);
      AtOneMore(a[..], to, bs[..i], x);
      assert bs[..i + 1] == bs[..i] + [x];
    }
    assert bs[..2 * r] == bs;
  }

  function HalfXored(bs: seq<Block>, vs: seq<Block>, i: nat): (r: seq<Block>)
    requires |bs| == |vs| && i <= |bs|
    ensures |r| == |bs|
  {
    XorBlocks(bs, vs)[..i] + bs[i..]
  }

  /** The inner loop of `ro_mix`: an entry of the table combined into the state. */
  method XorState(a: array<Word>, b: nat, v: nat, words: nat, ghost r: nat, ghost bs: seq<Block>, ghost vs: seq<Block>)
    requires words == 32 * r && |bs| == 2 * r && |vs| == 2 * r && At(a[..], b, bs) && At(a[..], v, vs)
             && Apart(b, 32 * r, v, 32 * r)
    modifies a
    ensures At(a[..], b, XorBlocks(bs, vs)) && Only(old(a[..]), a[..], b, 32 * r)
  {
    hide At, Only, XorBlock, XorBlocks, HalfXored;
    HalfXoredEnds(bs, vs);
    OnlyNothing(a[..], b, 32 * r);
    for i := 0 to words / 16
      invariant At(a[..], b, HalfXored(bs, vs, i)) && At(a[..], v, vs) && Only(old(a[..]), a[..], b, 32 * r)
    {
      ghost var mem := a[..];
      HalfXoredStep(bs, vs, i);
      AtBlock(mem, b, HalfXored(bs, vs, i), i);
      AtBlock(mem, v, vs, i);
      var x: Block := a[b + 16 * i..b + 16 * i + 16];
      x := Combine(x, a, v + 16 * i);
      Store(a, b + 16 * i, x);
      AtStored(mem, a[..], b, HalfXored(bs, vs, i), i, x);
      AtElsewhere(mem, a[..], b + 16 * i, 16, v, vs);
      OnlyTwice(old(a[..]), mem, a[..], b, 32 * r, b, 32 * r, b + 16 * i, 16);
    }
  }

  lemma HalfXoredEnds(bs: seq<Block>, vs: seq<Block>)
    requires |bs| == |vs|
    ensures HalfXored(bs, vs, 0) == bs && HalfXored(bs, vs, |bs|) == XorBlocks(bs, vs)
  {
  }

  lemma HalfXoredStep(bs: seq<Block>, vs: seq<Block>, i: nat)
    requires |bs| == |vs| && i < |bs|
    ensures HalfXored(bs, vs, i)[i] == bs[i]
    ensures HalfXored(bs, vs, i)[i := XorBlock(bs[i], vs[i])] == HalfXored(bs, vs, i + 1)
  {
  }

  /** Where the entry `m` of the table starts. */
  function Entry(v: nat, m: nat, r: nat): (e: nat)
    ensures e >= v
  {
    v + m * (32 * r)
  }

  lemma EntriesApart(v: nat, m: nat, m': nat, r: nat)
    ensures m < m' ==> Entry(v, m, r) + 32 * r <= Entry(v, m', r)
  {
    Below(m, m', 32 * r);
  }

  /** The first `n` entries of the table are the iterates of `BlockMix`. */
  ghost predicate TableHolds(mem: seq<Word>, v: nat, r: nat, core: Core, bs: seq<Block>, n: nat)
    requires |bs| > 0 && |bs| % 2 == 0
  {
    forall m :: 0 <= m < n ==> At(mem, Entry(v, m, r), Iterated(core, bs, m))
  }

  lemma AtElsewhereTwo(mem: seq<Word>, mem': seq<Word>, lo: nat, n: nat, hi: nat, m: nat, off: nat, bs: seq<Block>)
    requires At(mem, off, bs) && OnlyTwo(mem, mem', lo, n, hi, m)
    requires Apart(lo, n, off, 16 * |bs|) && Apart(hi, m, off, 16 * |bs|)
    ensures At(mem', off, bs)
  {
    forall i | 0 <= i < |bs| ensures BlockAt(mem', off + 16 * i) == bs[i] {
      assert BlockAt(mem', off + 16 * i) == BlockAt(mem, off + 16 * i);
    }
  }

  /** The table outlives a change of the state and of Y. */
  lemma TableElsewhere(mem: seq<Word>, mem': seq<Word>, b: nat, v: nat, y: nat, r: nat, core: Core, bs: seq<Block>,
                       n: nat)
    requires r > 0 && |bs| == 2 * r && TableHolds(mem, v, r, core, bs, n) && OnlyTwo(mem, mem', b, 32 * r, y, 32 * r)
    requires b + 32 * r <= v && Entry(v, n, r) <= y
    ensures TableHolds(mem', v, r, core, bs, n)
  {
    forall m | 0 <= m < n ensures At(mem', Entry(v, m, r), Iterated(core, bs, m)) {
      EntriesApart(v, m, n, r);
      AtElsewhereTwo(mem, mem', b, 32 * r, y, 32 * r, Entry(v, m, r), Iterated(core, bs, m));
    }
  }

  /** One entry more. */
  lemma TableOneMore(mem: seq<Word>, mem': seq<Word>, v: nat, r: nat, core: Core, bs: seq<Block>, n: nat)
    requires r > 0 && |bs| == 2 * r && TableHolds(mem, v, r, core, bs, n)
    requires Only(mem, mem', Entry(v, n, r), 32 * r) && At(mem', Entry(v, n, r), Iterated(core, bs, n))
    ensures TableHolds(mem', v, r, core, bs, n + 1)
  {
    hide At, Only, Iterated, Entry;
    forall m | 0 <= m < n ensures At(mem', Entry(v, m, r), Iterated(core, bs, m)) {
      EntriesApart(v, m, n, r);
      AtElsewhere(mem, mem', Entry(v, n, r), 32 * r, Entry(v, m, r), Iterated(core, bs, m));
    }
  }

  /** The areas of one run: the state, the table of `n` entries behind it, and Y behind that. */
  predicate Layout(length: nat, b: nat, v: nat, y: nat, r: nat, n: nat) {
    && r > 0 && b + 32 * r <= v && y == Entry(v, n, r) && y + 64 * r <= length
    && 128 * r < U32 && (n - 1) * (32 * r) < U32
  }

  /** The first loop of `ro_mix`: V[i] is the state mixed `i` times. */
  method FillTable(core: Core, a: array<Word>, b: nat, v: nat, y: nat, r: nat, n: nat, ghost bs: seq<Block>)
    requires Layout(a.Length, b, v, y, r, n) && |bs| == 2 * r && At(a[..], b, bs)
    modifies a
    ensures TableHolds(a[..], v, r, core, bs, n) && At(a[..], b, Iterated(core, bs, n))
    ensures OnlyTwo(old(a[..]), a[..], b, 32 * r, v, a.Length - v)
  {
    hide At, Only, OnlyTwo, BlockMix, Iterated, Entry;
    var i := 0;
    NothingDone(a[..], b, v, r, core, bs);
    while i < n
      invariant i <= n && TableHolds(a[..], v, r, core, bs, i) && At(a[..], b, Iterated(core, bs, i))
      invariant OnlyTwo(old(a[..]), a[..], b, 32 * r, v, a.Length - v)
    {
      ghost var m0, x := a[..], Iterated(core, bs, i);
      EntryFits(a.Length, b, v, y, r, n, i);
      CopyState(a, v + Offset(i, r), b, StateBytes(r), r, x);
      ghost var m1 := a[..];
      TableOneMore(m0, m1, v, r, core, bs, i);
      MixBlocks(core, a, b, y, r, x);
      EntriesApart(v, i + 1, n, r);
      TableElsewhere(m1, a[..], b, v, y, r, core, bs, i + 1);
      IteratedStep(core, bs, i);
      RoundStaysInside(old(a[..]), m0, m1, a[..], b, v, y, r, n, i);
      i := i + 1;
    }
  }

  lemma NothingDone(mem: seq<Word>, b: nat, v: nat, r: nat, core: Core, bs: seq<Block>)
    requires r > 0 && |bs| == 2 * r && v <= |mem|
    ensures Iterated(core, bs, 0) == bs && TableHolds(mem, v, r, core, bs, 0)
    ensures OnlyTwo(mem, mem, b, 32 * r, v, |mem| - v)
  {
  }

  lemma IteratedStep(core: Core, bs: seq<Block>, i: nat)
    requires |bs| > 0 && |bs| % 2 == 0
    ensures Iterated(core, bs, i + 1) == BlockMix(core, Iterated(core, bs, i))
  {
  }

  /** No product is cut off for an entry of the table, and the entry lies between the state and Y. */
  lemma EntryFits(length: nat, b: nat, v: nat, y: nat, r: nat, n: nat, i: nat)
    requires Layout(length, b, v, y, r, n) && i < n
    ensures Words(r) == 32 * r && StateBytes(r) == 128 * r && v + Offset(i, r) == Entry(v, i, r)
    ensures b + 32 * r <= Entry(v, i, r) && Entry(v, i, r) + 32 * r <= y && v <= Entry(v, i, r)
  {
    hide Offset;
    OffsetIsRight(n, r, i);
    EntriesApart(v, i, n, r);
  }

  lemma SmallRemainder(x: nat)
    requires x < U32
    ensures x % U32 == x
  {
  }

  lemma RoundStaysInside(start: seq<Word>, m0: seq<Word>, m1: seq<Word>, m2: seq<Word>,
                         b: nat, v: nat, y: nat, r: nat, n: nat, i: nat)
    requires Layout(|m0|, b, v, y, r, n) && i < n
    requires OnlyTwo(start, m0, b, 32 * r, v, |m0| - v) && Only(m0, m1, Entry(v, i, r), 32 * r)
    requires OnlyTwo(m1, m2, b, 32 * r, y, 32 * r)
    ensures OnlyTwo(start, m2, b, 32 * r, v, |m0| - v)
  {
    EntryFits(|m0|, b, v, y, r, n, i);
  }

  lemma WalkStarts(core: Core, bs: seq<Block>, n: nat)
    requires |bs| > 0 && |bs| % 2 == 0 && n > 0
    ensures Walked(core, bs, n, 0) == Iterated(core, bs, n)
  {
  }

  lemma WalkStep(core: Core, bs: seq<Block>, n: nat, i: nat)
    requires |bs| > 0 && |bs| % 2 == 0 && n > 0
    ensures var x := Walked(core, bs, n, i);
            Walked(core, bs, n, i + 1) == BlockMix(core, XorBlocks(x, Iterated(core, bs, Integerify(x) % n)))
  {
  }

  lemma OnlyTwoTwice(m0: seq<Word>, m1: seq<Word>, m2: seq<Word>, b: nat, n: nat, v: nat)
    requires v <= |m0| && OnlyTwo(m0, m1, b, n, v, |m0| - v) && OnlyTwo(m1, m2, b, n, v, |m0| - v)
    ensures OnlyTwo(m0, m2, b, n, v, |m0| - v)
  {
  }

  lemma OnlyWidens(m0: seq<Word>, m1: seq<Word>, b: nat, n: nat, y: nat, m: nat)
    requires Only(m0, m1, b, n)
    ensures OnlyTwo(m0, m1, b, n, y, m)
  {
  }

  lemma MixStaysInside(m0: seq<Word>, m1: seq<Word>, m2: seq<Word>, b: nat, v: nat, y: nat, r: nat, n: nat)
    requires Layout(|m0|, b, v, y, r, n) && Only(m0, m1, b, 32 * r) && OnlyTwo(m1, m2, b, 32 * r, y, 32 * r)
    ensures OnlyTwo(m0, m2, b, 32 * r, v, |m0| - v)
  {
  }

  /** One step of the walk: entry `j` of the table goes into the state, which is mixed. */
  method WalkRound(core: Core, a: array<Word>, b: nat, v: nat, y: nat, r: nat, n: nat, j: nat,
                   ghost bs: seq<Block>, ghost x: seq<Block>)
    requires Layout(a.Length, b, v, y, r, n) && |bs| == 2 * r && |x| == 2 * r && j < n
    requires TableHolds(a[..], v, r, core, bs, n) && At(a[..], b, x)
    modifies a
    ensures At(a[..], b, BlockMix(core, XorBlocks(x, Iterated(core, bs, j))))
    ensures TableHolds(a[..], v, r, core, bs, n) && OnlyTwo(old(a[..]), a[..], b, 32 * r, v, a.Length - v)
  {
    hide At, Only, OnlyTwo, BlockMix, Iterated, XorBlocks, Entry;
    ghost var m0 := a[..];
    EntryFits(a.Length, b, v, y, r, n, j);
    XorState(a, b, v + Offset(j, r), Words(r), r, x, Iterated(core, bs, j));
    ghost var m1 := a[..];
    OnlyWidens(m0, m1, b, 32 * r, y, 32 * r);
    TableElsewhere(m0, m1, b, v, y, r, core, bs, n);
    MixBlocks(core, a, b, y, r, XorBlocks(x, Iterated(core, bs, j)));
    TableElsewhere(m1, a[..], b, v, y, r, core, bs, n);
    MixStaysInside(m0, m1, a[..], b, v, y, r, n);
  }

  /** The second loop of `ro_mix`: the state walks through the table. */
  method WalkTable(core: Core, a: array<Word>, b: nat, v: nat, y: nat, r: nat, n: nat, ghost k: nat,
                   ghost bs: seq<Block>)
    requires Layout(a.Length, b, v, y, r, n) && |bs| == 2 * r && k <= 32 && n == Pow2(k)
    requires TableHolds(a[..], v, r, core, bs, n) && At(a[..], b, Iterated(core, bs, n))
    modifies a
    ensures At(a[..], b, RoMix(core, bs, n)) && OnlyTwo(old(a[..]), a[..], b, 32 * r, v, a.Length - v)
  {
    hide At, Only, OnlyTwo, BlockMix, Walked, Iterated, Entry;
    WalkStarts(core, bs, n);
    NothingDone(a[..], b, v, r, core, bs);
    var i := 0;
    while i < n
      invariant i <= n && TableHolds(a[..], v, r, core, bs, n) && At(a[..], b, Walked(core, bs, n, i))
      invariant OnlyTwo(old(a[..]), a[..], b, 32 * r, v, a.Length - v)
    {
      ghost var x, mem := Walked(core, bs, n, i), a[..];
      AtBlock(a[..], b, x, 2 * r - 1);
      IntegerifyLow(x, k);
      var j := And(a[b + BlockOffset(2 * r - 1)], n - 1);
      WalkStep(core, bs, n, i);
      WalkRound(core, a, b, v, y, r, n, j, bs, x);
      OnlyTwoTwice(old(a[..]), mem, a[..], b, 32 * r, v);
      i := i + 1;
    }
  }

  /** `ro_mix`: in place, with every index a 32-bit product, the state becomes its ROMix, and no word
      outside the state, the table and Y changes. */
  method RoMixInPlace(core: Core, a: array<Word>, b: nat, v: nat, y: nat, r: nat, n: nat, ghost k: nat,
                      ghost bs: seq<Block>)
    requires Layout(a.Length, b, v, y, r, n) && |bs| == 2 * r && k <= 32 && n == Pow2(k) && At(a[..], b, bs)
    modifies a
    ensures At(a[..], b, RoMix(core, bs, n)) && OnlyTwo(old(a[..]), a[..], b, 32 * r, v, a.Length - v)
  {
    hide At, OnlyTwo, TableHolds, RoMix, Iterated, Entry;
    FillTable(core, a, b, v, y, r, n, bs);
    ghost var mem := a[..];
    WalkTable(core, a, b, v, y, r, n, k, bs);
    OnlyTwoTwice(old(a[..]), mem, a[..], b, 32 * r, v);
  }
}
