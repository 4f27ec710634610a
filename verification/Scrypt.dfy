/** The mixing of scrypt as RFC 7914 defines it, for any 64-byte core in the place of Salsa20/8. */
module Scrypt {
  import opened Powers

  type Word = x: int | 0 <= x < 0x1_0000_0000

  type Block = b: seq<Word> | |b| == 16 witness seq(16, _ => 0)

  type Core = Block -> Block

  // ---- BlockMix, section 4 of RFC 7914 --------------------------------------------------

  function XorWord(x: Word, y: Word): Word {
    Pow2Of32(); XorFits(x, y, 32);
    Xor(x, y)
  }

  function XorBlock(a: Block, b: Block): Block {
    seq(16, k requires 0 <= k < 16 => XorWord(a[k], b[k]))
  }

  /** The running block after `i` blocks of `bs` have been mixed in. */
  function Chain(core: Core, bs: seq<Block>, i: nat): Block
    requires i <= |bs| && |bs| > 0
  {
    if i == 0 then bs[|bs| - 1] else core(XorBlock(Chain(core, bs, i - 1), bs[i - 1]))
  }

  /** The chain's blocks, those in even places first. */
  function BlockMix(core: Core, bs: seq<Block>): (r: seq<Block>)
    requires |bs| > 0 && |bs| % 2 == 0
    ensures |r| == |bs|
  {
    var half := |bs| / 2;
    seq(|bs|, i requires 0 <= i < |bs| =>
      if i < half then Chain(core, bs, 2 * i + 1) else Chain(core, bs, 2 * (i - half) + 2))
  }

  // ---- ROMix, section 5 of RFC 7914 -----------------------------------------------------

  /** A block read as a little-endian integer. */
  function LittleEndian(w: seq<Word>): nat {
    if w == [] then 0 else w[0] + U32 * LittleEndian(w[1..])
  }

  function Integerify(bs: seq<Block>): nat
    requires |bs| > 0
  {
    LittleEndian(bs[|bs| - 1])
  }

  /** The low word alone decides the remainder, when the modulus divides 2^32. */
  lemma IntegerifyLow(bs: seq<Block>, k: nat)
    requires |bs| > 0 && k <= 32
    ensures And(bs[|bs| - 1][0], Pow2(k) - 1) == Integerify(bs) % Pow2(k)
  {
    var b := bs[|bs| - 1];
    MaskIsRemainder(b[0], k);
    Pow2Of32();
    Pow2Adds(k, 32 - k);
    RestDivides(b[0], Pow2(k), Pow2(32 - k), LittleEndian(b[1..]));
  }

  lemma RestDivides(low: nat, n: nat, m: nat, high: nat)
    requires n > 0
    ensures (low + n * m * high) % n == low % n
  {
    QuotientAndRest(low, n);
    MulAssociates(n, m, high);
    MulDistributes(low / n, m * high, n);
    assert m * high >= 0;
    RemainderIs(low + n * m * high, n, low / n + m * high, low % n);
  }

  /** `BlockMix` iterated `i` times: the entry `i` of the table V. */
  function Iterated(core: Core, bs: seq<Block>, i: nat): (r: seq<Block>)
    requires |bs| > 0 && |bs| % 2 == 0
    ensures |r| == |bs|
  {
    if i == 0 then bs else BlockMix(core, Iterated(core, bs, i - 1))
  }

  function XorBlocks(a: seq<Block>, b: seq<Block>): (r: seq<Block>)
    requires |a| == |b|
    ensures |r| == |a|
  {
    seq(|a|, i requires 0 <= i < |a| => XorBlock(a[i], b[i]))
  }

  /** The state after `i` steps through the table, each to the entry its state asks for. */
  function Walked(core: Core, bs: seq<Block>, n: nat, i: nat): (r: seq<Block>)
    requires |bs| > 0 && |bs| % 2 == 0 && n > 0
    ensures |r| == |bs|
  {
    if i == 0 then Iterated(core, bs, n)
    else
      var x := Walked(core, bs, n, i - 1);
      BlockMix(core, XorBlocks(x, Iterated(core, bs, Integerify(x) % n)))
  }

  function RoMix(core: Core, bs: seq<Block>, n: nat): (r: seq<Block>)
    requires |bs| > 0 && |bs| % 2 == 0 && n > 0
    ensures |r| == |bs|
  {
    Walked(core, bs, n, n)
  }

  // ---- The first sizes written out ------------------------------------------------------

  /** Bit `k` of a number. */
  predicate BitOf(x: nat, k: nat) {
    if k == 0 then x % 2 == 1 else BitOf(x / 2, k - 1)
  }

  lemma {:induction false} XorFlips(x: nat, y: nat, k: nat)
    ensures BitOf(Xor(x, y), k) <==> BitOf(x, k) != BitOf(y, k)
  {
    if k > 0 {
      XorFlips(x / 2, y / 2, k - 1);
    } else if x == 0 && y == 0 {
      assert Xor(x, y) == 0;
    }
    assert Xor(x, y) / 2 == Xor(x / 2, y / 2);
  }

  /** A word mixed with another differs from it in exactly the bits the other has. */
  lemma WordsFlip(x: Word, y: Word, k: nat)
    ensures BitOf(XorWord(x, y), k) <==> BitOf(x, k) != BitOf(y, k)
  {
    XorFlips(x, y, k);
  }

  /** BlockMix of two block pairs: each block is mixed into the result for the one before, the first into
      the last block of the input, and the even results come first. */
  lemma BlockMixOfFour(core: Core, bs: seq<Block>)
    requires |bs| == 4
    ensures var y0 := core(XorBlock(bs[3], bs[0]));
            var y1 := core(XorBlock(y0, bs[1]));
            var y2 := core(XorBlock(y1, bs[2]));
            var y3 := core(XorBlock(y2, bs[3]));
            BlockMix(core, bs) == [y0, y2, y1, y3]
  {
    assert Chain(core, bs, 1) == core(XorBlock(bs[3], bs[0]));
    assert Chain(core, bs, 2) == core(XorBlock(Chain(core, bs, 1), bs[1]));
    assert Chain(core, bs, 3) == core(XorBlock(Chain(core, bs, 2), bs[2]));
    assert Chain(core, bs, 4) == core(XorBlock(Chain(core, bs, 3), bs[3]));
  }

  /** ROMix with a table of two entries, the state and its first mix: two mixes fill it; then twice the
      entry that the state asks for, by the parity of its last block, is mixed in. */
  lemma RoMixOfTwo(core: Core, bs: seq<Block>)
    requires |bs| > 0 && |bs| % 2 == 0
    ensures var v1 := BlockMix(core, bs);
            var x0 := BlockMix(core, v1);
            var x1 := BlockMix(core, XorBlocks(x0, if LittleEndian(x0[|bs| - 1]) % 2 == 0 then bs else v1));
            RoMix(core, bs, 2) == BlockMix(core, XorBlocks(x1, if LittleEndian(x1[|bs| - 1]) % 2 == 0 then bs else v1))
  {
    hide BlockMix, XorBlocks, LittleEndian;
    var v1 := BlockMix(core, bs);
    assert Iterated(core, bs, 0) == bs && Iterated(core, bs, 1) == v1;
    var x0 := Walked(core, bs, 2, 0);
    assert x0 == BlockMix(core, v1);
    var x1 := Walked(core, bs, 2, 1);
    assert x1 == BlockMix(core, XorBlocks(x0, Iterated(core, bs, Integerify(x0) % 2)));
    assert Walked(core, bs, 2, 2) == BlockMix(core, XorBlocks(x1, Iterated(core, bs, Integerify(x1) % 2)));
  }
}
