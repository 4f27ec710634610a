/** The buddy allocator: free lists threaded through the page array, coalescing on free and
    splitting on allocation. Callers see a set of free pages; see `BuddyRuns` for whole runs. */
module BuddyZone {
  import opened BuddyBlocks
  import opened Powers
  import opened BuddyState

  const FRAME_POOL_BASE: nat := 0x0100_0000
  const IDENT_MAP_LIMIT: nat := 0x4000_0000
  const PAGE_SIZE: nat := 4096

  /** A usable range of physical memory, in bytes. */
  datatype Range = Range(base: nat, len: nat)

  datatype AllocResult = NoPage | Allocated(pfn: nat)

  /** What `free_pages` does with its argument: ignore it, halt the machine, or free it. */
  datatype FreeResult = Ignored | MisroutedHalt | DoubleFreeHalt | Freed

  function FirstPfn(r: Range): nat { r.base / PAGE_SIZE }
  function EndPfn(r: Range): nat { (r.base + r.len) / PAGE_SIZE }

  /** The pages of the first `n` ranges that belong to the buddy: those above the identity map. */
  ghost function Released(ranges: seq<Range>, n: nat): (s: set<nat>)
    requires n <= |ranges|
    ensures forall p :: p in s <==> exists i :: 0 <= i < n && FirstPfn(ranges[i]) <= p < EndPfn(ranges[i])
                                                && p * PAGE_SIZE >= IDENT_MAP_LIMIT
  {
    if n == 0 then {}
    else Released(ranges, n - 1) + ReleasedIn(ranges[n - 1], EndPfn(ranges[n - 1]))
  }

  /** The pages of a range, before `end`, that belong to the buddy. */
  ghost function ReleasedIn(r: Range, end: nat): (s: set<nat>)
    ensures forall p :: p in s <==> FirstPfn(r) <= p < end && p * PAGE_SIZE >= IDENT_MAP_LIMIT
  {
    if end <= FirstPfn(r) then {} else ReleasedIn(r, end - 1) + OwnPage(end - 1)
  }

  ghost function OwnPage(pfn: nat): set<nat> {
    if pfn * PAGE_SIZE >= IDENT_MAP_LIMIT then {pfn} else {}
  }

  /** What an allocation of `order` at `pfn` took: a whole aligned run of free pages, cut from the
      start of a best-fitting block, and nothing else. */
  ghost predicate AllocatedFrom(w: Partition, order: nat, pfn: nat, w': Partition) {
    && order < MAX_ORDER && Aligned(pfn, order)
    && BestFit(w, order, pfn)
    && Pages(Block(pfn, order)) <= w.Keys
    && w'.Keys == w.Keys - Pages(Block(pfn, order))
  }

  lemma NoRunLeft(w: Partition, order: nat)
    requires Canonical(w)
    requires forall c: Block :: IsBlock(w, c) && order <= c.order ==> MAX_ORDER <= c.order
    ensures order >= MAX_ORDER || !HasRun(w.Keys, order)
  {
    if order < MAX_ORDER {
      RunExists(w, order);
    }
  }

  /** Taking block `b` and giving all but its sub-block `c` back. */
  lemma SplitKeys(free: set<nat>, b: Block, c: Block, free': set<nat>)
    requires Pages(b) <= free && Pages(c) <= Pages(b)
    requires Pages(c) !! free'
    requires free' + Pages(c) == (free - Pages(b)) + Pages(b)
    ensures free' == free - Pages(c)
    ensures |free'| == |free| - Pow2(c.order)
  {
    PagesCount(c);
    assert free' + Pages(c) == free;
  }

  lemma AllocEffect(w: Partition, b: Block, taken: Partition, w': Partition, order: nat)
    requires Canonical(w) && IsBlock(w, b) && order <= b.order && taken == w - Pages(b)
    requires forall c: Block :: IsBlock(w, c) && order <= c.order ==> b.order <= c.order
    requires Pages(Block(b.pfn, order)) !! w'.Keys
    requires w'.Keys + Pages(Block(b.pfn, order)) == taken.Keys + Pages(b)
    ensures AllocatedFrom(w, order, b.pfn, w')
    ensures b.pfn !in w' && |w'.Keys| == |w.Keys| - Pow2(order)
  {
    var c := Block(b.pfn, order);
    SubBlock(b, order);
    BlockPagesFree(w, b);
    assert taken.Keys == w.Keys - Pages(b);
    SplitKeys(w.Keys, b, c, w'.Keys);
    assert b.pfn in Pages(c);
    assert b == Block(b.pfn, b.order);
  }

  class Zone {
    const mem: array<Page>
    const area: array<Link>
    const count: array<nat>
    const basePfn: nat
    const nrPages: nat
    const physmapReady: bool
    var nrFree: nat
    ghost var lists: seq<seq<nat>>
    ghost var owner: Partition
    ghost var managed: set<nat>

    ghost function Snap(): State
      reads this`lists, this`owner, mem, area, count
    {
      State(mem[..], area[..], count[..], lists, owner)
    }

    ghost predicate ValidLists()
      reads this`lists, this`owner, this`managed, mem, area, count
    {
      && Rep(Snap(), basePfn, basePfn + nrPages)
      && Owns(Snap(), managed)
    }

    ghost predicate Valid()
      reads this, mem, area, count
    {
      ValidLists() && nrFree == |owner.Keys|
    }

    ghost predicate Freeable(b: Block)
      reads this`owner, this`managed
    {
      CanFree(owner, managed, basePfn, basePfn + nrPages, b)
    }

    /** The marks of all pages, which the allocator reads and, past the boot, leaves alone. */
    ghost function Marks(): seq<Mark>
      reads mem
    {
      MarksOf(mem[..])
    }

    /** The pages that belong to the older pool. */
    ghost function Legacy(): set<nat>
      reads mem
    {
      LegacyOf(Marks())
    }

    lemma LegacyPage(p: nat)
      ensures p in Legacy() <==> p < mem.Length && mem[p].legacy
    {
    }

    /** Every page of the block was released to the buddy and is neither legacy nor reserved. */
    ghost predicate HandedOut(b: Block)
      reads this`managed, mem
    {
      && Pages(b) <= managed
      && (forall x :: x in Pages(b) ==> x < mem.Length && !mem[x].legacy && !mem[x].reserved)
    }

    /** An empty zone over `maxPfn` pages, all reserved. */
    constructor (maxPfn: nat, ready: bool)
      ensures Valid() && owner == map[] && managed == {} && physmapReady == ready
      ensures basePfn == 0 && nrPages == maxPfn == mem.Length
      ensures Marks() == seq(maxPfn, _ => Mark(false, true, 0))
      ensures fresh(mem) && fresh(area) && fresh(count)
    {
      basePfn, nrPages, nrFree, physmapReady := 0, maxPfn, 0, ready;
      mem := new Page[maxPfn](_ => Page(false, true, false, 0, 0, Null));
      area := new Link[MAX_ORDER](_ => Null);
      count := new nat[MAX_ORDER](_ => 0);
      lists := seq(MAX_ORDER, _ => []);
      owner, managed := map[], {};
      new;
      assert forall o :: 0 <= o < MAX_ORDER ==> ListOk(Snap(), o);
    }

    /** Clear the flags of a page that becomes the buddy's own. */
    method Adopt(pfn: nat)
      requires Valid() && pfn !in managed && pfn < mem.Length
      modifies this`managed, mem
      ensures Valid()
      ensures managed == old(managed) + {pfn}
      ensures Marks() == old(Marks())[pfn := Mark(false, false, old(mem[pfn].refcount))]
    {
      SetPage(pfn, mem[pfn].(free := false, reserved := false, legacy := false));
      managed := managed + {pfn};
    }

    /** Leave a page to the older pool. */
    method MarkLegacy(pfn: nat)
      requires Valid() && pfn !in managed && pfn < mem.Length
      modifies mem
      ensures Valid() && mem[pfn].legacy && mem[pfn].reserved && !mem[pfn].free
      ensures Marks() == old(Marks())[pfn := Mark(true, true, old(mem[pfn].refcount))]
    {
      SetPage(pfn, mem[pfn].(free := false, reserved := true, legacy := true));
    }

    /** The release of one page above the identity map. */
    method ReleasePage(pfn: nat)
      requires Valid() && pfn !in managed && basePfn <= pfn < basePfn + nrPages
      modifies this`lists, this`owner, this`nrFree, this`managed, mem, area, count
      ensures Valid()
      ensures managed == old(managed) + {pfn} && owner.Keys == old(owner.Keys) + {pfn}
      ensures pfn < mem.Length
      ensures Marks() == old(Marks())[pfn := Mark(false, false, old(mem[pfn].refcount))]
    {
      hide Rep, Owns, Canonical, IsBlock, MarksOf;
      ZoneFacts();
      Adopt(pfn);
      SinglePage(pfn);
      BuddyFreeLocked(pfn, 0);
    }

    lemma ZoneFacts()
      requires ValidLists()
      ensures basePfn + nrPages <= mem.Length && Canonical(owner) && owner.Keys <= managed
      ensures area.Length == count.Length == |lists| == MAX_ORDER
      ensures forall x :: x in owner ==> basePfn <= x < basePfn + nrPages
    {
    }

    /** Walk the list of `order` for page `b`; `prev` is the cell whose link is `b`. */
    method FindOnList(b: nat, order: nat) returns (found: bool, prev: Link, ghost at: nat)
      requires ValidLists() && order < MAX_ORDER
      ensures found <==> IsBlock(owner, Block(b, order))
      ensures found ==> at < |lists[order]| && lists[order][at] == b
      ensures found ==> prev == if at == 0 then Null else To(lists[order][at - 1])
    {
      ghost var l := lists[order];
      assert ListOk(Snap(), order);
      at := 0;
      var cur := area[order];
      prev := Null;
      while cur != Null && cur != To(b)
        invariant at <= |l| && cur == LinkAt(l, at)
        invariant prev == if at == 0 then Null else To(l[at - 1])
        invariant b !in l[..at]
        decreases |l| - at
      {
        assert LinkOk(mem[..], l, at);
        prev, cur, at := cur, mem[cur.pfn].next, at + 1;
      }
      found := cur != Null;
      if found {
        assert l[at] in l;
      } else {
        assert l[..at] == l;
      }
    }

    /** Take page `b`, entry `at` of its list, off the list of `order`. */
    method Detach(b: nat, order: nat, prev: Link, newOrder: nat, ghost at: nat)
      requires ValidLists() && order < MAX_ORDER && at < |lists[order]| && lists[order][at] == b
      requires prev == if at == 0 then Null else To(lists[order][at - 1])
      modifies this`lists, this`owner, mem, area, count
      ensures owner == old(owner) - Pages(Block(b, order))
      ensures ValidLists()
      ensures Marks() == old(Marks())
      ensures b < mem.Length && mem[b].next == Null
    {
      hide Owns, FlagOk, Chain, Canonical;
      ghost var s := Snap();
      UnlinkKeepsRep(s, basePfn, basePfn + nrPages, order, at, newOrder);
      UnlinkKeepsOwns(s, order, at, newOrder, managed);
      UnlinkKeepsMarks(s, order, at, newOrder);
      if prev == Null {
        area[order] := mem[b].next;
      } else {
        mem[prev.pfn] := mem[prev.pfn].(next := mem[b].next);
      }
      assert mem[..] == Skip(s, order, at);
      count[order] := (count[order] + U32 - 1) % U32;
      mem[b] := mem[b].(free := false, order := newOrder, next := Null);
      lists := lists[order := lists[order][..at] + lists[order][at + 1..]];
      owner := owner - Pages(Block(b, order));
      assert Snap() == Unlink(s, order, at, newOrder);
    }

    /** Put a block at the head of its free list. */
    method Insert(b: Block)
      requires ValidLists() && Freeable(b)
      requires b.order < MAX_ORDER - 1 ==> !IsBlock(owner, Buddy(b))
      modifies this`lists, this`owner, mem, area, count
      ensures owner == AddBlock(old(owner), b)
      ensures ValidLists()
      ensures Marks() == old(Marks())
      ensures b.pfn < mem.Length && mem[..] == old(mem[..])[b.pfn := mem[b.pfn]]
    {
      ghost var s := Snap();
      assert In(b.pfn, b) && b.pfn in Pages(b);
      PushKeepsRep(s, basePfn, basePfn + nrPages, b);
      PushKeepsOwns(s, b, managed);
      hide Rep, Owns, AddBlock, Pages;
      SameMark(mem[..], b.pfn, mem[b.pfn].(free := true, order := b.order, next := area[b.order]));
      mem[b.pfn] := mem[b.pfn].(free := true, order := b.order, next := area[b.order]);
      area[b.order] := To(b.pfn);
      count[b.order] := (count[b.order] + 1) % U32;
      lists := lists[b.order := [b.pfn] + lists[b.order]];
      owner := AddBlock(owner, b);
      ghost var t := Push(s, b);
      assert mem[..] == t.pages;
      assert area[..] == t.area && count[..] == t.count;
      assert Snap() == t;
    }

    /** If the buddy of `b` is free as a block of the same order, take it off its list. */
    method TakeBuddy(b: Block) returns (taken: bool)
      requires ValidLists() && b.order < MAX_ORDER - 1
      modifies this`lists, this`owner, mem, area, count
      ensures ValidLists()
      ensures taken <==> IsBlock(old(owner), Buddy(b))
      ensures owner == if taken then old(owner) - Pages(Buddy(b)) else old(owner)
      ensures !taken ==> mem[..] == old(mem[..])
      ensures Marks() == old(Marks())
    {
      hide MarksOf;
      var pfn, order := XorBit(b.pfn, b.order), b.order;
      if pfn < basePfn || pfn >= basePfn + nrPages || !(mem[pfn].free && mem[pfn].order == order) {
        NotThatBlock(Snap(), basePfn, basePfn + nrPages, Buddy(b));
        return false;
      }
      var prev;
      ghost var at;
      taken, prev, at := FindOnList(pfn, order);
      if taken {
        Detach(pfn, order, prev, 0, at);
      }
    }

    /** One turn of the coalescing loop: `b` grows by its buddy, or stays and `more` is false. */
    method MergeOnce(b: Block) returns (b': Block, more: bool)
      requires Valid() && b.order < MAX_ORDER - 1 && b.pfn < mem.Length
      modifies this`lists, this`owner, this`nrFree, mem, area, count
      ensures Valid() && b'.pfn < mem.Length
      ensures if more then b' == Merged(b) else b' == b && !IsBlock(owner, Buddy(b))
      ensures more <==> IsBlock(old(owner), Buddy(b))
      ensures !more ==> owner == old(owner) && mem[..] == old(mem[..])
      ensures old(Freeable(b)) ==> Freeable(b') && owner.Keys + Pages(b') == old(owner.Keys) + Pages(b)
      ensures Marks() == old(Marks())
    {
      hide Rep, Owns, Canonical, CanFree, IsBlock, MarksOf;
      ghost var w := owner;
      ZoneFacts();
      more := TakeBuddy(b);
      if more {
        if CanFree(w, managed, basePfn, basePfn + nrPages, b) {
          MergeFreeable(w, managed, basePfn, basePfn + nrPages, b);
        }
        RemoveBuddy(w, b);
        nrFree := nrFree - Pow2(b.order);
        b' := Merged(b);
      } else {
        b' := b;
      }
    }

    /** The head insertion of `buddy_free_locked`. */
    method PushFree(b: Block, ghost s: State)
      requires b.pfn < mem.Length && b.order < area.Length && b.order < count.Length && b.order < |s.lists|
      requires mem[..] == s.pages && area[..] == s.area && count[..] == s.count
      modifies this`nrFree, mem, area, count
      ensures mem[..] == Push(s, b).pages && area[..] == Push(s, b).area && count[..] == Push(s, b).count
      ensures nrFree == old(nrFree) + Pow2(b.order)
      ensures mem[..] == old(mem[..])[b.pfn := mem[b.pfn]] && mem[b.pfn].free
              && mem[b.pfn].legacy == old(mem[b.pfn].legacy)
      ensures Marks() == old(Marks())
    {
      SameMark(mem[..], b.pfn, mem[b.pfn].(free := true, order := b.order, next := area[b.order]));
      mem[b.pfn] := mem[b.pfn].(free := true, order := b.order, next := area[b.order]);
      area[b.order] := To(b.pfn);
      count[b.order] := (count[b.order] + 1) % U32;
      nrFree := nrFree + Pow2(b.order);
    }

    /** Some free lists and some partition of the pages agree with the page array, the list heads and
        all counters. */
    ghost predicate Readable()
      reads this`nrFree, mem, area, count
    {
      exists l: seq<seq<nat>>, w: Partition ::
        Rep(State(mem[..], area[..], count[..], l, w), basePfn, basePfn + nrPages) && nrFree == |w.Keys|
    }

    lemma ValidIsReadable()
      requires Valid()
      ensures Readable()
    {
    }

    /** The end of `buddy_free_locked`: the block joins its list and, if it may, the free pages. */
    method InsertCounted(b: Block)
      requires Valid() && b.pfn < mem.Length && b.order < MAX_ORDER
      requires b.order < MAX_ORDER - 1 ==> !IsBlock(owner, Buddy(b))
      modifies this`lists, this`owner, this`nrFree, mem, area, count
      ensures old(Freeable(b)) ==> Valid() && owner.Keys == old(owner.Keys) + Pages(b)
      ensures mem[..] == old(mem[..])[b.pfn := mem[b.pfn]] && mem[b.pfn].free
              && mem[b.pfn].legacy == old(mem[b.pfn].legacy)
      ensures Marks() == old(Marks())
    {
      ghost var s, free := Snap(), Freeable(b);
      ZoneFacts();
      if free {
        InsertedState(s, b);
      }
      hide Rep, Owns, Canonical, CanFree, IsBlock, AddBlock, Pages, Pow2, MarksOf, Push;
      PushFree(b, s);
      if free {
        Account(s, b);
      }
    }

    /** What the free lists and the free pages are after a push. */
    ghost method Account(s: State, b: Block)
      requires b.pfn < |s.pages| && b.order < |s.area| && b.order < |s.count| && b.order < |s.lists|
      requires Rep(Push(s, b), basePfn, basePfn + nrPages) && Owns(Push(s, b), managed)
      requires mem[..] == Push(s, b).pages && area[..] == Push(s, b).area && count[..] == Push(s, b).count
      requires nrFree == |AddBlock(s.owner, b).Keys|
      modifies this`lists, this`owner
      ensures Valid() && owner == AddBlock(s.owner, b)
    {
      hide Rep, Owns, AddBlock, Pages, Pow2;
      lists, owner := Push(s, b).lists, AddBlock(s.owner, b);
      assert Snap() == Push(s, b);
    }

    lemma InsertedState(s: State, b: Block)
      requires Rep(s, basePfn, basePfn + nrPages) && Owns(s, managed)
      requires CanFree(s.owner, managed, basePfn, basePfn + nrPages, b)
      requires b.order < MAX_ORDER - 1 ==> !IsBlock(s.owner, Buddy(b))
      ensures b.pfn < |s.pages| && |s.area| == |s.count| == |s.lists| == MAX_ORDER
      ensures Rep(Push(s, b), basePfn, basePfn + nrPages) && Owns(Push(s, b), managed)
      ensures |AddBlock(s.owner, b).Keys| == |s.owner.Keys| + Pow2(b.order)
    {
      assert In(b.pfn, b) && b.pfn in Pages(b);
      PushKeepsRep(s, basePfn, basePfn + nrPages, b);
      PushKeepsOwns(s, b, managed);
      CountAddBlock(s.owner, b);
    }

    lemma InnerIsUnreadable(s: State, p: nat)
      requires Rep(s, basePfn, basePfn + nrPages) && p in s.owner && !IsHead(s.owner, p)
      requires p < |s.pages| == mem.Length && mem[..] == s.pages[p := mem[p]] && mem[p].free && !mem[p].legacy
      ensures !Readable()
    {
      forall l: seq<seq<nat>>, w: Partition
        ensures !Rep(State(mem[..], area[..], count[..], l, w), basePfn, basePfn + nrPages)
      {
        InnerMarkUnreadable(s, State(mem[..], area[..], count[..], l, w), basePfn, basePfn + nrPages, p, mem[p]);
      }
    }

    /** `buddy_free_locked`: merge the block with its buddy as long as the buddy is free at the
        same order, then put the result on its list. That is right for a block the allocator owns and
        that is not free; a page inside a free block makes the page array unreadable. */
    method BuddyFreeLocked(pfn: nat, order: nat)
      requires Valid() && pfn < mem.Length && order < MAX_ORDER
      modifies this`lists, this`owner, this`nrFree, mem, area, count
      ensures old(Freeable(Block(pfn, order))) ==> Valid() && owner.Keys == old(owner.Keys) + Pages(Block(pfn, order))
      ensures pfn in old(owner) && !IsHead(old(owner), pfn) ==>
                !Readable() && mem[..] == old(mem[..])[pfn := mem[pfn]] && mem[pfn].free
      ensures Marks() == old(Marks())
    {
      hide MarksOf;
      var b, more := Block(pfn, order), true;
      ghost var freeable, inner := Freeable(b), pfn in owner && !IsHead(owner, pfn);
      while b.order < MAX_ORDER - 1 && more
        invariant Valid() && b.pfn < mem.Length && b.order < MAX_ORDER
        invariant freeable ==> Freeable(b) && owner.Keys + Pages(b) == old(owner.Keys) + Pages(Block(pfn, order))
        invariant inner ==> b == Block(pfn, order) && owner == old(owner) && mem[..] == old(mem[..])
        invariant !more && b.order < MAX_ORDER - 1 ==> !IsBlock(owner, Buddy(b))
        invariant Marks() == old(Marks())
        decreases MAX_ORDER - b.order, more
      {
        if inner {
          ZoneFacts();
          NoBuddyToMerge(owner, pfn, order);
        }
        b, more := MergeOnce(b);
      }
      ghost var s := Snap();
      if inner {
        FlagMarksHeads(pfn);
      }
      InsertCounted(b);
      if inner {
        InnerIsUnreadable(s, pfn);
      }
    }

    /** Give the upper halves of `b` back until a block of `order` is left at its start. */
    method SplitDown(b: Block, order: nat)
      requires ValidLists() && Freeable(b) && order <= b.order
      modifies this`lists, this`owner, mem, area, count
      ensures ValidLists() && Freeable(Block(b.pfn, order))
      ensures owner.Keys + Pages(Block(b.pfn, order)) == old(owner.Keys) + Pages(b)
      ensures Marks() == old(Marks())
      ensures b.pfn < mem.Length ==> mem[b.pfn] == old(mem[b.pfn])
    {
      hide Rep, Owns, Canonical, IsBlock, MarksOf;
      var o := b.order;
      while o > order
        invariant order <= o && ValidLists() && Freeable(Block(b.pfn, o))
        invariant owner.Keys + Pages(Block(b.pfn, o)) == old(owner.Keys) + Pages(b)
        invariant b.pfn < mem.Length ==> mem[b.pfn] == old(mem[b.pfn])
        invariant Marks() == old(Marks())
      {
        SplitFreeable(owner, managed, basePfn, basePfn + nrPages, Block(b.pfn, o));
        o := o - 1;
        Insert(Block(b.pfn + Pow2(o), o));
      }
    }

    lemma EmptyList(order: nat)
      requires ValidLists() && order < MAX_ORDER && area[order] == Null
      ensures forall b: Block :: IsBlock(owner, b) ==> b.order != order
    {
      assert ListOk(Snap(), order);
    }

    /** Take the first block off a list that is not empty. */
    method TakeFirst(order: nat) returns (b: Block)
      requires ValidLists() && order < MAX_ORDER && area[order] != Null
      modifies this`lists, this`owner, mem, area, count
      ensures ValidLists() && b.order == order && IsBlock(old(owner), b)
      ensures owner == old(owner) - Pages(b) && Freeable(b)
      ensures Marks() == old(Marks())
      ensures b.pfn < mem.Length && mem[b.pfn].next == Null
    {
      hide MarksOf;
      assert ListOk(Snap(), order);
      var pfn := area[order].pfn;
      b := Block(pfn, order);
      assert pfn in lists[order];
      BlockPagesFree(owner, b);
      BlockInZone(Snap(), basePfn, basePfn + nrPages, b);
      Detach(pfn, order, Null, mem[pfn].order, 0);
    }

    /** Rewrite a page that is not free. */
    method SetPage(pfn: nat, v: Page)
      requires ValidLists() && pfn < mem.Length && pfn !in owner
      requires v.free ==> v.legacy
      requires pfn in managed ==> !v.legacy && !v.reserved
      modifies mem
      ensures ValidLists() && mem[..] == old(mem[..])[pfn := v]
      ensures |Marks()| == mem.Length && Marks() == old(Marks())[pfn := Mark(v.legacy, v.reserved, v.refcount)]
    {
      ghost var s := Snap();
      TouchKeepsRep(s, basePfn, basePfn + nrPages, pfn, v);
      MarkUpdate(s.pages, pfn, v);
      mem[pfn] := v;
      assert Snap() == s.(pages := s.pages[pfn := v]);
    }

    /** `buddy_alloc_locked`: the smallest free block that is large enough, split down. */
    method BuddyAllocLocked(order: nat) returns (r: AllocResult)
      requires Valid()
      modifies this`lists, this`owner, this`nrFree, mem, area, count
      ensures Valid()
      ensures r.NoPage? <==> order >= MAX_ORDER || !HasRun(old(owner.Keys), order)
      ensures r.NoPage? ==> owner == old(owner)
      ensures r.Allocated? ==> AllocatedFrom(old(owner), order, r.pfn, owner)
      ensures Marks() == old(Marks())
      ensures r.Allocated? ==> r.pfn < mem.Length && mem[r.pfn].order == 0 && mem[r.pfn].next == Null
    {
      hide MarksOf;
      ghost var w := owner;
      var o := order;
      while o < MAX_ORDER
        invariant Valid() && owner == w && Marks() == old(Marks())
        invariant forall c: Block :: IsBlock(w, c) && order <= c.order ==> o <= c.order
      {
        if area[o] == Null {
          EmptyList(o);
        } else {
          RunExists(w, order);
          var pfn := AllocFrom(order, o);
          return Allocated(pfn);
        }
        o := o + 1;
      }
      NoRunLeft(w, order);
      r := NoPage;
    }

    /** Take the first block off list `o` and cut a block of `order` off its start. */
    method CutFrom(order: nat, o: nat) returns (pfn: nat)
      requires ValidLists() && order <= o < MAX_ORDER && area[o] != Null
      requires forall c: Block :: IsBlock(owner, c) && order <= c.order ==> o <= c.order
      modifies this`lists, this`owner, mem, area, count
      ensures ValidLists()
      ensures IsBlock(old(owner), Block(pfn, o))
      ensures AllocatedFrom(old(owner), order, pfn, owner)
      ensures |owner.Keys| + Pow2(order) == old(|owner.Keys|)
      ensures pfn < mem.Length && pfn !in owner && mem[pfn].next == Null
      ensures Marks() == old(Marks())
    {
      hide MarksOf;
      ghost var w := owner;
      var b := TakeFirst(o);
      ghost var taken := owner;
      SplitDown(b, order);
      AllocEffect(w, b, taken, owner, order);
      pfn := b.pfn;
    }

    method AllocFrom(order: nat, o: nat) returns (pfn: nat)
      requires Valid() && order <= o < MAX_ORDER && area[o] != Null
      requires forall c: Block :: IsBlock(owner, c) && order <= c.order ==> o <= c.order
      modifies this`lists, this`owner, this`nrFree, mem, area, count
      ensures Valid()
      ensures IsBlock(old(owner), Block(pfn, o))
      ensures AllocatedFrom(old(owner), order, pfn, owner)
      ensures Marks() == old(Marks())
      ensures pfn < mem.Length && mem[pfn].order == 0 && mem[pfn].next == Null
    {
      hide Rep, Owns, Canonical, AllocatedFrom;
      pfn := CutFrom(order, o);
      nrFree := nrFree - Pow2(order);
      PageIsPlain(pfn);
      SetPage(pfn, mem[pfn].(order := 0));
    }

    lemma PageIsPlain(pfn: nat)
      requires ValidLists() && pfn < mem.Length && pfn !in owner
      ensures mem[pfn].free ==> mem[pfn].legacy
      ensures pfn in managed ==> !mem[pfn].legacy && !mem[pfn].reserved && !mem[pfn].free
    {
      assert FlagOk(Snap(), pfn);
    }

    /** `alloc_pages`, after the lock is taken. */
    method AllocPages(order: nat) returns (r: AllocResult)
      requires Valid()
      modifies this`lists, this`owner, this`nrFree, mem, area, count
      ensures Valid()
      ensures r.NoPage? <==> order >= MAX_ORDER || !physmapReady || !HasRun(old(owner.Keys), order)
      ensures r.NoPage? ==> owner == old(owner) && Marks() == old(Marks())
      ensures r.Allocated? ==> AllocatedFrom(old(owner), order, r.pfn, owner)
      ensures r.Allocated? ==> HandedOut(Block(r.pfn, order))
      ensures r.Allocated? ==> r.pfn < mem.Length && mem[r.pfn] == Page(false, false, false, 0, 0, Null)
      ensures r.Allocated? ==> Marks() == old(Marks())[r.pfn := Mark(false, false, 0)]
      ensures Legacy() == old(Legacy())
    {
      hide MarksOf, Rep, Owns, Canonical, LegacyOf;
      if order >= MAX_ORDER || !physmapReady {
        return NoPage;
      }
      ZoneFacts();
      r := BuddyAllocLocked(order);
      if r.Allocated? {
        TakenPage(owner, old(owner), order, r.pfn);
        PageIsPlain(r.pfn);
        SameLegacy(Marks(), r.pfn, Mark(false, false, 0));
        SetPage(r.pfn, mem[r.pfn].(refcount := 0));
        PagesArePlain();
      }
    }

    lemma TakenPage(w': Partition, w: Partition, order: nat, pfn: nat)
      requires Valid() && AllocatedFrom(w, order, pfn, w') && w.Keys <= managed && order < MAX_ORDER
      ensures pfn in managed && pfn !in w' && Pages(Block(pfn, order)) <= managed
    {
      assert pfn in Pages(Block(pfn, order));
    }

    lemma PagesArePlain()
      requires ValidLists()
      ensures forall p :: p in managed ==> p < mem.Length && !mem[p].legacy && !mem[p].reserved
    {
    }

    /** The tests at the head of `free_pages`, for every page there is: the answer `Freed` lets the free
        go on. */
    method FreeGuard(p: Link, order: nat) returns (r: FreeResult)
      requires Valid() && (p.To? ==> p.pfn < mem.Length)
      ensures r.Ignored? <==> p.Null? || order >= MAX_ORDER
      ensures r.MisroutedHalt? <==> p.To? && order < MAX_ORDER && mem[p.pfn].legacy
      ensures r.DoubleFreeHalt? <==> p.To? && order < MAX_ORDER && IsHead(owner, p.pfn)
    {
      if p.Null? || order >= MAX_ORDER {
        return Ignored;
      }
      assert FlagOk(Snap(), p.pfn);
      if mem[p.pfn].legacy {
        return MisroutedHalt;
      }
      if mem[p.pfn].free {
        return DoubleFreeHalt;
      }
      r := Freed;
    }

    /** The flag the guard reads is set on a free page if and only if a free block starts there. */
    lemma FlagMarksHeads(p: nat)
      requires Valid() && p in owner
      ensures p < mem.Length && !mem[p].legacy && (mem[p].free <==> IsHead(owner, p))
    {
      ZoneFacts();
      assert FlagOk(Snap(), p);
    }

    /** `free_pages`: past the guard a block that its caller owns is freed. The free of a page that is
        free already is stopped if and only if a free block starts there, and where it is not stopped
        it leaves a page array that no free lists explain. */
    method FreePages(p: Link, order: nat) returns (r: FreeResult)
      requires Valid() && (p.To? ==> p.pfn < mem.Length)
      modifies this`lists, this`owner, this`nrFree, mem, area, count
      ensures r.Ignored? <==> p.Null? || order >= MAX_ORDER
      ensures r.MisroutedHalt? <==> p.To? && order < MAX_ORDER && old(mem[p.pfn].legacy)
      ensures r.DoubleFreeHalt? <==> p.To? && order < MAX_ORDER && IsHead(old(owner), p.pfn)
      ensures !r.Freed? ==> Valid() && owner == old(owner)
      ensures r.Freed? && old(Freeable(Block(p.pfn, order))) ==>
                Valid() && owner.Keys == old(owner.Keys) + Pages(Block(p.pfn, order))
      ensures p.To? && order < MAX_ORDER && p.pfn in old(owner) ==> (Readable() <==> IsHead(old(owner), p.pfn))
      ensures r.Freed? && p.pfn in old(owner) ==> mem[..] == old(mem[..])[p.pfn := mem[p.pfn]] && mem[p.pfn].free
      ensures Marks() == old(Marks())
    {
      hide MarksOf;
      r := FreeGuard(p, order);
      ValidIsReadable();
      if p.To? && p.pfn in owner {
        FlagMarksHeads(p.pfn);
      }
      if r.Freed? {
        BuddyFreeLocked(p.pfn, order);
      }
    }

    /** The lines of `mm_init` that release a page, for a page released before: it finds no buddy and goes
        on a list once more, and the page array and `nr_free` no longer agree. The search for the buddy
        reads other pages and links only, so that the flags are cleared behind it here. */
    method ReleaseAgain(pfn: nat)
      requires Valid() && pfn in owner
      modifies this`lists, this`owner, this`nrFree, mem, area, count
      ensures !Readable()
      ensures mem[pfn].free && !mem[pfn].reserved && !mem[pfn].legacy && mem[pfn].order == 0
      ensures forall p: nat :: p < mem.Length && p != pfn ==> mem[p] == old(mem[p])
    {
      hide Rep, Owns, Canonical, IsBlock, Readable, Pow2;
      ZoneFacts();
      NoBuddyToMerge(owner, pfn, 0);
      Pow2Zero();
      var taken := TakeBuddy(Block(pfn, 0));
      ZoneFacts();
      ghost var s := Snap();
      mem[pfn] := mem[pfn].(free := false, reserved := false, legacy := false);
      PushFree(Block(pfn, 0), s.(pages := s.pages[pfn := mem[pfn]]));
      AgainIsUnreadable(s, pfn);
    }

    lemma AgainIsUnreadable(s: State, p: nat)
      requires Rep(s, basePfn, basePfn + nrPages) && p in s.owner && nrFree == |s.owner.Keys| + 1
      requires p < |s.pages| == mem.Length && mem[..] == s.pages[p := mem[p]] && mem[p].order == 0
      ensures !Readable()
    {
      forall l: seq<seq<nat>>, w: Partition
        ensures Rep(State(mem[..], area[..], count[..], l, w), basePfn, basePfn + nrPages) ==> nrFree != |w.Keys|
      {
        if Rep(State(mem[..], area[..], count[..], l, w), basePfn, basePfn + nrPages) {
          MarkAddsNoPage(s, State(mem[..], area[..], count[..], l, w), basePfn, basePfn + nrPages, p, mem[p]);
        }
      }
    }

    /** `frame_shadow_set`: the older pool keeps its own free flag on its pages. */
    method FrameShadowSet(pfn: nat, v: bool)
      requires Valid() && pfn < mem.Length && mem[pfn].legacy
      modifies mem
      ensures Valid() && mem[..] == old(mem[..])[pfn := old(mem[pfn]).(free := v)]
      ensures Marks() == old(Marks())
    {
      assert FlagOk(Snap(), pfn);
      SetPage(pfn, mem[pfn].(free := v));
    }
  }
}
