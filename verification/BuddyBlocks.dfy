/** Aligned page blocks, and the canonical partition of a set of free pages into them.

    A block of order `k` is the run of `2^k` pages that starts at a page number divisible by
    `2^k`. Two blocks of one order whose numbers differ only in bit `k` are buddies. */
module BuddyBlocks {
  import opened Powers

  const MAX_ORDER: nat := 11

  datatype Block = Block(pfn: nat, order: nat)

  // ---- Arithmetic of page numbers -------------------------------------------------------

  /** `x ^ (1 << bit)`: flip one bit of `x`. */
  function XorBit(x: nat, bit: nat): nat {
    if bit == 0 then (if x % 2 == 0 then x + 1 else x - 1)
    else 2 * XorBit(x / 2, bit - 1) + x % 2
  }

  /** `x >> order`: the number of the order-`order` block that holds page `x`. */
  function Index(x: nat, order: nat): nat {
    if order == 0 then x else Index(x / 2, order - 1)
  }

  /** The low `order` bits of `x` are zero. */
  predicate Aligned(x: nat, order: nat) {
    order == 0 || (x % 2 == 0 && Aligned(x / 2, order - 1))
  }

  predicate In(x: nat, b: Block) {
    b.pfn <= x < b.pfn + Pow2(b.order)
  }

  function Pages(b: Block): (s: set<nat>)
    ensures forall x :: x in s <==> In(x, b)
  {
    set x: nat | b.pfn <= x < b.pfn + Pow2(b.order) && In(x, b)
  }

  function Buddy(b: Block): Block {
    Block(XorBit(b.pfn, b.order), b.order)
  }

  lemma {:induction false} IndexIsDivision(x: nat, order: nat)
    ensures Index(x, order) * Pow2(order) <= x < (Index(x, order) + 1) * Pow2(order)
    ensures Aligned(x, order) <==> x == Index(x, order) * Pow2(order)
  {
    if order > 0 {
      IndexIsDivision(x / 2, order - 1);
      var q, p := Index(x / 2, order - 1), Pow2(order - 1);
      assert q * Pow2(order) == 2 * (q * p);
      assert (q + 1) * Pow2(order) == 2 * ((q + 1) * p);
    }
  }

  lemma {:induction false} IndexSucc(x: nat, order: nat)
    ensures Index(x, order + 1) == Index(x, order) / 2
  {
    if order > 0 {
      IndexSucc(x / 2, order - 1);
    }
  }

  /** The pages of an aligned block are those that share its index. */
  lemma {:induction false} InByIndex(x: nat, b: Block)
    requires Aligned(b.pfn, b.order)
    ensures In(x, b) <==> Index(x, b.order) == Index(b.pfn, b.order)
    decreases b.order
  {
    if b.order > 0 {
      InByIndex(x / 2, Block(b.pfn / 2, b.order - 1));
    }
  }

  lemma {:induction false} IndexMonotone(x: nat, y: nat, o: nat, o': nat)
    requires Index(x, o) == Index(y, o) && o <= o'
    ensures Index(x, o') == Index(y, o')
    decreases o' - o
  {
    if o < o' {
      IndexSucc(x, o);
      IndexSucc(y, o);
      IndexMonotone(x, y, o + 1, o');
    }
  }

  /** Aligned blocks are nested or disjoint. */
  lemma Nested(a: Block, b: Block, x: nat, y: nat)
    requires Aligned(a.pfn, a.order) && Aligned(b.pfn, b.order) && a.order <= b.order
    requires In(x, a) && In(x, b) && In(y, a)
    ensures In(y, b)
  {
    InByIndex(x, a);
    InByIndex(y, a);
    InByIndex(x, b);
    InByIndex(y, b);
    IndexMonotone(x, y, a.order, b.order);
  }

  lemma {:induction false} AlignedSameIndex(x: nat, y: nat, order: nat)
    requires Aligned(x, order) && Aligned(y, order) && Index(x, order) == Index(y, order)
    ensures x == y
  {
    if order > 0 {
      AlignedSameIndex(x / 2, y / 2, order - 1);
    }
  }

  /** Two aligned blocks of one order that share a page are the same block. */
  lemma SameBlock(a: Block, b: Block, x: nat)
    requires Aligned(a.pfn, a.order) && Aligned(b.pfn, b.order) && a.order == b.order
    requires In(x, a) && In(x, b)
    ensures a == b
  {
    InByIndex(x, a);
    InByIndex(x, b);
    AlignedSameIndex(a.pfn, b.pfn, a.order);
  }

  /** The buddy lies next to the block, on the side bit `order` says, and the lower of the two
      starts the block of the next order that both make up. */
  lemma {:induction false} BuddyFacts(p: nat, order: nat)
    requires Aligned(p, order)
    ensures var q := XorBit(p, order);
            && Aligned(q, order) && XorBit(q, order) == p
            && (Aligned(p, order + 1) ==> q == p + Pow2(order))
            && (!Aligned(p, order + 1) ==> p == q + Pow2(order) && Aligned(q, order + 1))
  {
    if order == 0 {
      assert Aligned(p, 1) <==> p % 2 == 0;
      if p % 2 == 1 {
        assert Aligned((p - 1) / 2, 0);
      }
    } else {
      BuddyFacts(p / 2, order - 1);
      var q := XorBit(p, order);
      assert q / 2 == XorBit(p / 2, order - 1) && q % 2 == 0;
      assert Aligned(p, order + 1) <==> Aligned(p / 2, order);
      assert Aligned(q, order + 1) <==> Aligned(q / 2, order);
    }
  }

  lemma {:induction false} AlignedDown(p: nat, order: nat)
    requires Aligned(p, order + 1)
    ensures Aligned(p, order)
  {
    if order > 0 {
      AlignedDown(p / 2, order - 1);
    }
  }

  /** A block of order `k + 1` is its lower half, its upper half, and these are buddies. */
  lemma Halves(p: nat, order: nat)
    requires Aligned(p, order + 1)
    ensures Aligned(p, order) && Aligned(p + Pow2(order), order)
    ensures Buddy(Block(p, order)) == Block(p + Pow2(order), order)
    ensures Pages(Block(p, order + 1)) == Pages(Block(p, order)) + Pages(Block(p + Pow2(order), order))
    ensures Pages(Block(p, order)) !! Pages(Block(p + Pow2(order), order))
  {
    AlignedDown(p, order);
    BuddyFacts(p, order);
  }

  lemma {:induction false} PagesCount(b: Block)
    ensures |Pages(b)| == Pow2(b.order)
    decreases b.order
  {
    if b.order == 0 {
      assert Pages(b) == {b.pfn};
    } else {
      var p, o := b.pfn, b.order - 1;
      PagesCount(Block(p, o));
      PagesCount(Block(p + Pow2(o), o));
      assert Pages(b) == Pages(Block(p, o)) + Pages(Block(p + Pow2(o), o));
      assert Pages(Block(p, o)) !! Pages(Block(p + Pow2(o), o));
    }
  }

  // ---- Partitions of the free pages into blocks -----------------------------------------

  /** Which block each free page belongs to. */
  type Partition = map<nat, Block>

  ghost predicate IsBlock(w: Partition, b: Block) {
    b.pfn in w && w[b.pfn] == b
  }

  /** Every free page lies in its own block, and a block owns all its pages; so the blocks are
      pairwise disjoint and cover exactly the free pages. */
  ghost predicate WellFormed(w: Partition) {
    && (forall x :: x in w ==> In(x, w[x]) && w[x].order < MAX_ORDER && Aligned(w[x].pfn, w[x].order))
    && (forall x, y :: x in w && In(y, w[x]) ==> y in w && w[y] == w[x])
  }

  /** No two buddies below the largest order are both free. */
  ghost predicate Coalesced(w: Partition) {
    forall b: Block {:trigger Buddy(b)} :: IsBlock(w, b) && b.order < MAX_ORDER - 1 ==> !IsBlock(w, Buddy(b))
  }

  ghost predicate Canonical(w: Partition) {
    WellFormed(w) && Coalesced(w)
  }

  ghost function AddBlock(w: Partition, b: Block): (r: Partition)
    ensures r.Keys == w.Keys + Pages(b)
  {
    w + map x | x in Pages(b) :: b
  }

  lemma WellFormedHead(w: Partition, x: nat)
    requires WellFormed(w) && x in w
    ensures IsBlock(w, w[x])
  {
    assert In(w[x].pfn, w[x]);
  }

  lemma BlockPagesFree(w: Partition, b: Block)
    requires WellFormed(w) && IsBlock(w, b)
    ensures Pages(b) <= w.Keys
    ensures forall x :: x in w ==> (In(x, b) <==> w[x] == b)
  {
    forall x | In(x, b) ensures x in w && w[x] == b {
      assert In(x, w[b.pfn]);
    }
  }

  lemma RemoveBlock(w: Partition, b: Block)
    requires Canonical(w) && IsBlock(w, b)
    ensures Canonical(w - Pages(b))
    ensures forall c :: IsBlock(w - Pages(b), c) <==> IsBlock(w, c) && c != b
  {
    var r := w - Pages(b);
    RemoveWellFormed(w, b);
    forall c: Block | IsBlock(r, c) && c.order < MAX_ORDER - 1 ensures !IsBlock(r, Buddy(c)) {
      assert !IsBlock(w, Buddy(c));
    }
  }

  lemma RemoveWellFormed(w: Partition, b: Block)
    requires WellFormed(w) && IsBlock(w, b)
    ensures WellFormed(w - Pages(b))
    ensures forall x :: x in w - Pages(b) ==> x in w && (w - Pages(b))[x] == w[x]
    ensures forall c :: IsBlock(w - Pages(b), c) <==> IsBlock(w, c) && c != b
  {
    BlockPagesFree(w, b);
    var r := w - Pages(b);
    forall x, y | x in r && In(y, r[x]) ensures y in r && r[y] == r[x] {
      assert y in w && w[y] == w[x];
    }
    forall c ensures IsBlock(r, c) <==> IsBlock(w, c) && c != b {
      assert In(c.pfn, c);
      if c.pfn in w {
        assert In(c.pfn, b) <==> w[c.pfn] == b;
      }
    }
  }

  lemma InsertBlock(w: Partition, b: Block)
    requires Canonical(w) && b.order < MAX_ORDER && Aligned(b.pfn, b.order)
    requires Pages(b) !! w.Keys
    requires b.order < MAX_ORDER - 1 ==> !IsBlock(w, Buddy(b))
    ensures Canonical(AddBlock(w, b))
    ensures forall c :: IsBlock(AddBlock(w, b), c) <==> IsBlock(w, c) || c == b
  {
    var r := AddBlock(w, b);
    InsertWellFormed(w, b);
    forall c: Block | IsBlock(r, c) && c.order < MAX_ORDER - 1 ensures !IsBlock(r, Buddy(c)) {
      BuddyFacts(c.pfn, c.order);
      assert c != b ==> !IsBlock(w, Buddy(c));
    }
  }

  lemma AddBlockAt(w: Partition, b: Block)
    ensures forall x :: x in AddBlock(w, b) ==>
              x in Pages(b) + w.Keys && AddBlock(w, b)[x] == if In(x, b) then b else w[x]
  {
  }

  lemma InsertWellFormed(w: Partition, b: Block)
    requires WellFormed(w) && b.order < MAX_ORDER && Aligned(b.pfn, b.order)
    requires Pages(b) !! w.Keys
    ensures WellFormed(AddBlock(w, b))
    ensures forall x :: x in AddBlock(w, b) ==> AddBlock(w, b)[x] == if In(x, b) then b else w[x]
    ensures forall c :: IsBlock(AddBlock(w, b), c) <==> IsBlock(w, c) || c == b
  {
    var r := AddBlock(w, b);
    AddBlockAt(w, b);
    hide AddBlock;
    assert In(b.pfn, b);
    forall x, y | x in r && In(y, r[x]) ensures y in r && r[y] == r[x] {
      if In(x, b) {
        assert y in Pages(b);
      } else {
        assert y in w && w[y] == w[x];
        assert y !in Pages(b);
      }
    }
  }

  /** A partition has as many pages as it has keys, so block sizes add up. */
  lemma CountAddBlock(w: Partition, b: Block)
    requires Pages(b) !! w.Keys
    ensures |AddBlock(w, b).Keys| == |w.Keys| + Pow2(b.order)
  {
    PagesCount(b);
  }

  lemma CountRemoveBlock(w: Partition, b: Block)
    requires Pages(b) <= w.Keys
    ensures |(w - Pages(b)).Keys| == |w.Keys| - Pow2(b.order)
  {
    PagesCount(b);
    assert (w - Pages(b)).Keys == w.Keys - Pages(b);
  }

  /** The block of the next order that a block makes up with its buddy. */
  function Merged(b: Block): Block {
    Block(if Buddy(b).pfn < b.pfn then Buddy(b).pfn else b.pfn, b.order + 1)
  }

  lemma MergedPages(b: Block)
    requires Aligned(b.pfn, b.order)
    ensures Aligned(Merged(b).pfn, Merged(b).order)
    ensures Pages(Merged(b)) == Pages(b) + Pages(Buddy(b))
    ensures Merged(b).pfn + Pow2(Merged(b).order) ==
              (if Buddy(b).pfn < b.pfn then b.pfn else Buddy(b).pfn) + Pow2(b.order)
  {
    BuddyFacts(b.pfn, b.order);
    Halves(Merged(b).pfn, b.order);
  }

  lemma {:induction false} XorTwice(p: nat, order: nat)
    ensures XorBit(XorBit(p, order), order) == p
  {
    if order > 0 {
      XorTwice(p / 2, order - 1);
    }
  }

  /** Flipping a bit moves a page within every block larger than that bit. */
  lemma {:induction false} XorStaysInside(p: nat, order: nat, k: nat)
    requires order < k
    ensures Index(XorBit(p, order), k) == Index(p, k)
  {
    if order > 0 {
      XorStaysInside(p / 2, order - 1, k - 1);
    }
  }

  lemma {:induction false} AlignedBelow(p: nat, order: nat, k: nat)
    requires Aligned(p, order) && k <= order
    ensures Aligned(p, k)
  {
    if k < order {
      AlignedDown(p, order - 1);
      AlignedBelow(p, order - 1, k);
    }
  }

  /** A page inside a free block has no free buddy, whatever order it is freed with; nor has the first
      page, with an order up to that of its block. */
  lemma NoBuddyToMerge(w: Partition, p: nat, order: nat)
    requires Canonical(w) && p in w && order < MAX_ORDER - 1 && (w[p].pfn != p || order <= w[p].order)
    ensures !IsBlock(w, Buddy(Block(p, order)))
  {
    var b, q := w[p], XorBit(p, order);
    WellFormedHead(w, p);
    InByIndex(p, b);
    if order < b.order {
      XorStaysInside(p, order, b.order);
      InByIndex(q, b);
    } else if w[p].pfn == p {
      assert IsBlock(w, Block(p, order));
    } else if Aligned(q, order) {
      BuddyFacts(q, order);
      XorTwice(p, order);
      AlignedBelow(p, order, b.order);
      AlignedSameIndex(p, b.pfn, b.order);
    }
  }

  /** A block of the zone that is the allocator's own and not free at present. */
  ghost predicate CanFree(w: Partition, managed: set<nat>, lo: nat, hi: nat, b: Block) {
    && b.order < MAX_ORDER && Aligned(b.pfn, b.order)
    && lo <= b.pfn && b.pfn + Pow2(b.order) <= hi
    && Pages(b) <= managed - w.Keys
  }

  /** Merging a block with its free buddy moves no other page. */
  lemma MergeFreeable(w: Partition, managed: set<nat>, lo: nat, hi: nat, b: Block)
    requires Canonical(w) && IsBlock(w, Buddy(b)) && w.Keys <= managed
    requires CanFree(w, managed, lo, hi, b) && b.order < MAX_ORDER - 1
    requires forall x :: x in w ==> lo <= x < hi
    ensures var w' := w - Pages(Buddy(b));
            && CanFree(w', managed, lo, hi, Merged(b))
            && w'.Keys + Pages(Merged(b)) == w.Keys + Pages(b)
            && |w'.Keys| == |w.Keys| - Pow2(b.order)
  {
    var w' := w - Pages(Buddy(b));
    MergedPages(b);
    BlockPagesFree(w, Buddy(b));
    CountRemoveBlock(w, Buddy(b));
    assert w'.Keys == w.Keys - Pages(Buddy(b));
    var last := Buddy(b).pfn + Pow2(b.order) - 1;
    assert last in Pages(Buddy(b));
  }

  lemma RemoveBuddy(w: Partition, b: Block)
    requires Canonical(w) && IsBlock(w, Buddy(b))
    ensures |(w - Pages(Buddy(b))).Keys| == |w.Keys| - Pow2(b.order)
  {
    BlockPagesFree(w, Buddy(b));
    hide Canonical, IsBlock, Buddy, Pages;
    CountRemoveBlock(w, Buddy(b));
  }

  // ---- The canonical form ---------------------------------------------------------------

  /** Every aligned run of free pages lies inside ONE free block. */
  lemma RunInOneBlock(w: Partition, b: Block)
    requires Canonical(w) && b.order < MAX_ORDER && Aligned(b.pfn, b.order)
    requires Pages(b) <= w.Keys
    ensures b.pfn in w && b.order <= w[b.pfn].order
    ensures forall y :: In(y, b) ==> y in w && w[y] == w[b.pfn]
  {
    RunHasBigBlock(w, b);
    assert In(b.pfn, b);
    forall y | In(y, b) ensures y in w && w[y] == w[b.pfn] {
      Nested(b, w[b.pfn], b.pfn, y);
    }
  }

  lemma {:induction false} RunHasBigBlock(w: Partition, b: Block)
    requires Canonical(w) && b.order < MAX_ORDER && Aligned(b.pfn, b.order)
    requires Pages(b) <= w.Keys
    ensures b.pfn in w && b.order <= w[b.pfn].order
    decreases b.order
  {
    assert In(b.pfn, b);
    assert b.pfn in Pages(b);
    if b.order > 0 {
      hide Canonical, Aligned;
      var o := b.order - 1;
      var lo, hi := Block(b.pfn, o), Block(b.pfn + Pow2(o), o);
      Halves(b.pfn, o);
      RunHasBigBlock(w, lo);
      RunHasBigBlock(w, hi);
      if w[lo.pfn].order == o {
        LowerHalfIsNotAlone(w, b, lo, hi);
      }
    }
  }

  /** If the lower half of a free run were a block of its own, then so would be its buddy. */
  lemma LowerHalfIsNotAlone(w: Partition, b: Block, lo: Block, hi: Block)
    requires Canonical(w) && 0 < b.order < MAX_ORDER && Aligned(b.pfn, b.order)
    requires lo == Block(b.pfn, b.order - 1) && hi == Block(b.pfn + Pow2(b.order - 1), b.order - 1)
    requires lo.pfn in w && hi.pfn in w && hi.order <= w[hi.pfn].order
    ensures w[lo.pfn].order != lo.order
  {
    Halves(b.pfn, b.order - 1);
    assert In(lo.pfn, lo) && In(hi.pfn, hi) && In(lo.pfn, b) && In(hi.pfn, b);
    var c, d := w[lo.pfn], w[hi.pfn];
    if c.order == lo.order {
      SameBlock(c, lo, lo.pfn);
      if d.order == hi.order {
        SameBlock(d, hi, hi.pfn);
      } else {
        Nested(b, d, hi.pfn, lo.pfn);
      }
    }
  }

  /** The free blocks are exactly the maximal aligned runs of free pages. */
  ghost predicate Maximal(free: set<nat>, b: Block) {
    && b.order < MAX_ORDER && Aligned(b.pfn, b.order) && Pages(b) <= free
    && forall c: Block :: (c.order < MAX_ORDER && Aligned(c.pfn, c.order) && Pages(c) <= free
                          && Pages(b) <= Pages(c)) ==> c == b
  }

  lemma BlocksAreMaximalRuns(w: Partition, b: Block)
    requires Canonical(w)
    ensures IsBlock(w, b) <==> Maximal(w.Keys, b)
  {
    if IsBlock(w, b) {
      forall y | In(y, b) ensures y in w {
        assert In(y, w[b.pfn]);
      }
      forall c: Block | c.order < MAX_ORDER && Aligned(c.pfn, c.order) && Pages(c) <= w.Keys && Pages(b) <= Pages(c)
        ensures c == b
      {
        RunInOneBlock(w, c);
        assert b.pfn in Pages(b);
        assert w[b.pfn] == w[c.pfn] == b;
        if c.order < b.order {
          PagesCount(b);
          PagesCount(c);
          Pow2Grows(c.order, b.order);
          SubsetCount(Pages(b), Pages(c));
          assert false;
        }
        SameBlock(b, c, b.pfn);
      }
    }
    if Maximal(w.Keys, b) {
      RunInOneBlock(w, b);
      var c := w[b.pfn];
      WellFormedHead(w, b.pfn);
      forall y | In(y, b) ensures In(y, c) { Nested(b, c, b.pfn, y); }
      forall y | In(y, c) ensures y in w { assert In(y, w[b.pfn]); }
      assert Pages(b) <= Pages(c);
      assert c == b;
    }
  }

  lemma SinglePage(pfn: nat)
    ensures Pages(Block(pfn, 0)) == {pfn} && Aligned(pfn, 0) && Pow2(0) == 1
  {
  }

  lemma {:induction false} SubsetCount<T>(a: set<T>, b: set<T>)
    requires a <= b
    ensures |a| <= |b|
  {
    if a != {} {
      var x :| x in a;
      SubsetCount(a - {x}, b - {x});
    }
  }

  /** The set of free pages alone determines the free blocks. */
  lemma CanonicalIsUnique(v: Partition, w: Partition)
    requires Canonical(v) && Canonical(w) && v.Keys == w.Keys
    ensures v == w
  {
    forall x | x in v ensures v[x] == w[x] {
      WellFormedHead(v, x);
      BlocksAreMaximalRuns(v, v[x]);
      BlocksAreMaximalRuns(w, v[x]);
      assert In(x, w[v[x].pfn]);
    }
  }

  /** Some aligned run of `2^order` free pages exists. */
  ghost predicate HasRun(free: set<nat>, order: nat) {
    exists b: Block :: b.order == order && Aligned(b.pfn, order) && Pages(b) <= free
  }

  /** An aligned free run exists iff some free block is at least that large. */
  lemma RunExists(w: Partition, order: nat)
    requires Canonical(w) && order < MAX_ORDER
    ensures HasRun(w.Keys, order) <==> exists b: Block :: IsBlock(w, b) && order <= b.order
  {
    if HasRun(w.Keys, order) {
      var b: Block :| b.order == order && Aligned(b.pfn, order) && Pages(b) <= w.Keys;
      RunInOneBlock(w, b);
      WellFormedHead(w, b.pfn);
      assert IsBlock(w, w[b.pfn]) && order <= w[b.pfn].order;
    }
    if b: Block :| IsBlock(w, b) && order <= b.order {
      SubBlock(b, order);
      BlockPagesFree(w, b);
      var c := Block(b.pfn, order);
      assert c.order == order && Aligned(c.pfn, order) && Pages(c) <= w.Keys;
    }
  }

  /** `b` starts a free block of the smallest order that can serve a request of `order`. */
  ghost predicate BestFit(w: Partition, order: nat, pfn: nat) {
    exists o: nat :: order <= o && IsBlock(w, Block(pfn, o))
      && forall c: Block :: IsBlock(w, c) && order <= c.order ==> o <= c.order
  }

  /** Keeping the lower half of a block leaves the upper half free to insert. */
  lemma SplitFreeable(w: Partition, managed: set<nat>, lo: nat, hi: nat, b: Block)
    requires CanFree(w, managed, lo, hi, b) && 0 < b.order
    ensures var h := Pow2(b.order - 1);
            var low, high := Block(b.pfn, b.order - 1), Block(b.pfn + h, b.order - 1);
            && CanFree(w, managed, lo, hi, high)
            && CanFree(AddBlock(w, high), managed, lo, hi, low)
            && !IsBlock(w, Buddy(high))
            && AddBlock(w, high).Keys + Pages(low) == w.Keys + Pages(b)
  {
    Halves(b.pfn, b.order - 1);
    BuddyFacts(b.pfn, b.order - 1);
    assert b.pfn in Pages(b);
  }

  lemma {:induction false} SubBlock(b: Block, order: nat)
    requires Aligned(b.pfn, b.order) && order <= b.order
    ensures Aligned(b.pfn, order) && Pages(Block(b.pfn, order)) <= Pages(b)
    decreases b.order - order
  {
    if order < b.order {
      AlignedDown(b.pfn, b.order - 1);
      SubBlock(Block(b.pfn, b.order - 1), order);
    }
  }
}
