/** Whole runs of the allocator: what `alloc_pages` and `free_pages` promise call by call, chained
    over any sequence of calls in which a caller frees only blocks it still holds. */
module BuddyRuns {
  import opened BuddyBlocks
  import opened Powers
  import opened BuddyState
  import opened BuddyZone
  import opened BuddyBoot

  /** What a caller did: ask for a block, give one back, or refrain from giving back what it does not
      hold. */
  datatype Call = Alloc(order: nat, result: AllocResult) | Release(b: Block) | Refrain(b: Block)

  /** The free pages in their blocks, and the blocks callers hold. */
  datatype Sys = Sys(w: Partition, live: set<Block>)

  ghost predicate Step(s: Sys, c: Call, s': Sys) {
    && Canonical(s'.w)
    && match c
       case Alloc(order, NoPage) => (order >= MAX_ORDER || !HasRun(s.w.Keys, order)) && s' == s
       case Alloc(order, Allocated(pfn)) =>
         AllocatedFrom(s.w, order, pfn, s'.w) && s'.live == s.live + {Block(pfn, order)}
       case Release(b) => b in s.live && s'.w.Keys == s.w.Keys + Pages(b) && s'.live == s.live - {b}
       case Refrain(b) => b !in s.live && s' == s
  }

  ghost predicate Run(s: seq<Sys>, calls: seq<Call>) {
    |s| == |calls| + 1 && forall i :: 0 <= i < |calls| ==> Step(s[i], calls[i], s[i + 1])
  }

  ghost predicate LiveApart(live: set<Block>) {
    forall b, c :: b in live && c in live && b != c ==> Pages(b) !! Pages(c)
  }

  /** Every page the buddy owns is free or held, never both, and never held twice. */
  ghost predicate Accounted(s: Sys, managed: set<nat>) {
    && Canonical(s.w)
    && LiveApart(s.live)
    && (forall b :: b in s.live ==> Pages(b) <= managed - s.w.Keys)
    && (forall p :: p in managed <==> p in s.w.Keys || exists b :: b in s.live && In(p, b))
  }

  lemma StepKeepsAccounted(s: Sys, c: Call, s': Sys, managed: set<nat>)
    requires Accounted(s, managed) && Step(s, c, s')
    ensures Accounted(s', managed)
  {
    match c
    case Alloc(order, NoPage) =>
    case Alloc(order, Allocated(pfn)) => AllocKeepsAccounted(s, Block(pfn, order), s', managed);
    case Release(b) => ReleaseKeepsAccounted(s, b, s', managed);
    case Refrain(b) =>
  }

  lemma AllocKeepsAccounted(s: Sys, b: Block, s': Sys, managed: set<nat>)
    requires Accounted(s, managed) && Canonical(s'.w)
    requires Pages(b) <= s.w.Keys && s'.w.Keys == s.w.Keys - Pages(b) && s'.live == s.live + {b}
    ensures Accounted(s', managed)
  {
    forall p ensures p in managed <==> p in s'.w.Keys || exists c :: c in s'.live && In(p, c) {
      if p in s.w.Keys && p !in s'.w.Keys {
        assert b in s'.live && In(p, b);
      }
      if c :| c in s.live && In(p, c) {
        assert c in s'.live && In(p, c);
      }
    }
  }

  lemma ReleaseKeepsAccounted(s: Sys, b: Block, s': Sys, managed: set<nat>)
    requires Accounted(s, managed) && Canonical(s'.w)
    requires b in s.live && s'.w.Keys == s.w.Keys + Pages(b) && s'.live == s.live - {b}
    ensures Accounted(s', managed)
  {
    forall p ensures p in managed <==> p in s'.w.Keys || exists c :: c in s'.live && In(p, c) {
      if c :| c in s.live && In(p, c) {
        if c != b { assert c in s'.live && In(p, c); }
      }
    }
  }

  lemma {:induction false} RunKeepsAccounted(s: seq<Sys>, calls: seq<Call>, managed: set<nat>, n: nat)
    requires Run(s, calls) && n < |s| && Accounted(s[0], managed)
    ensures Accounted(s[n], managed)
  {
    if n > 0 {
      RunKeepsAccounted(s, calls, managed, n - 1);
      StepKeepsAccounted(s[n - 1], calls[n - 1], s[n], managed);
    }
  }

  /** Once every caller has given back what it holds, in whatever order, the free blocks are the
      very blocks the run started from. */
  lemma AllFreedRestoresBlocks(s: seq<Sys>, calls: seq<Call>, managed: set<nat>, n: nat)
    requires Run(s, calls) && n < |s| && Accounted(s[0], managed)
    requires s[0].live == {} && s[n].live == {}
    ensures s[n].w == s[0].w
  {
    RunKeepsAccounted(s, calls, managed, n);
    assert forall p :: p in managed <==> p in s[n].w.Keys;
    assert forall p :: p in managed <==> p in s[0].w.Keys;
    assert s[n].w.Keys == s[0].w.Keys;
    CanonicalIsUnique(s[n].w, s[0].w);
  }

  ghost function Sizes(blocks: set<Block>): nat {
    if blocks == {} then 0 else var b :| b in blocks; Pow2(b.order) + Sizes(blocks - {b})
  }

  ghost function AllPages(blocks: set<Block>): set<nat> {
    set b, p | b in blocks && p in Pages(b) :: p
  }

  lemma {:induction false} SizesCount(blocks: set<Block>)
    requires LiveApart(blocks)
    ensures |AllPages(blocks)| == Sizes(blocks)
  {
    if blocks == {} {
      assert AllPages(blocks) == {};
    } else {
      var b :| b in blocks && Sizes(blocks) == Pow2(b.order) + Sizes(blocks - {b});
      hide AllPages, Pages, LiveApart;
      OneBlockMore(blocks, b);
      SizesCount(blocks - {b});
      PagesCount(b);
    }
  }

  lemma OneBlockMore(blocks: set<Block>, b: Block)
    requires LiveApart(blocks) && b in blocks
    ensures AllPages(blocks) == AllPages(blocks - {b}) + Pages(b)
    ensures AllPages(blocks - {b}) !! Pages(b) && LiveApart(blocks - {b})
    ensures |AllPages(blocks)| == |AllPages(blocks - {b})| + |Pages(b)|
  {
  }

  /** No page is lost or made up: free pages and held pages always add up to the buddy's pages. */
  lemma PagesAreConserved(s: seq<Sys>, calls: seq<Call>, managed: set<nat>, n: nat)
    requires Run(s, calls) && n < |s| && Accounted(s[0], managed)
    ensures |s[n].w.Keys| + Sizes(s[n].live) == |managed|
  {
    RunKeepsAccounted(s, calls, managed, n);
    SizesCount(s[n].live);
    var held := AllPages(s[n].live);
    forall p ensures p in managed <==> p in s[n].w.Keys + held {
      if b :| b in s[n].live && In(p, b) {
        assert p in Pages(b);
      }
    }
    assert managed == s[n].w.Keys + held;
  }

  /** A request fails exactly when the pages that nobody holds contain no aligned run of its size. */
  lemma FailureMeansNoRun(s: seq<Sys>, calls: seq<Call>, managed: set<nat>, n: nat)
    requires Run(s, calls) && n < |calls| && Accounted(s[0], managed)
    requires calls[n].Alloc? && calls[n].order < MAX_ORDER
    ensures calls[n].result.NoPage? <==> !HasRun(managed - AllPages(s[n].live), calls[n].order)
  {
    RunKeepsAccounted(s, calls, managed, n);
    assert Step(s[n], calls[n], s[n + 1]);
    forall p ensures p in managed - AllPages(s[n].live) <==> p in s[n].w.Keys {
      if b :| b in s[n].live && In(p, b) {
        assert p in Pages(b);
      }
    }
    assert managed - AllPages(s[n].live) == s[n].w.Keys;
    if calls[n].result.Allocated? {
      var b := Block(calls[n].result.pfn, calls[n].order);
      assert b.order == calls[n].order && Aligned(b.pfn, b.order) && Pages(b) <= s[n].w.Keys;
    }
  }

  // ---- The zone itself runs like this ---------------------------------------------------

  datatype Request = Want(order: nat) | GiveBack(b: Block)

  function Asked(c: Call): Request {
    match c
    case Alloc(order, _) => Want(order)
    case Release(b) => GiveBack(b)
    case Refrain(b) => GiveBack(b)
  }

  /** The calls answer the first `|calls|` requests, in order. */
  ghost predicate Answers(calls: seq<Call>, requests: seq<Request>) {
    |calls| <= |requests| && forall i :: 0 <= i < |calls| ==> Asked(calls[i]) == requests[i]
  }

  /** What a caller that holds `b` can rely on. */
  ghost predicate Held(z: Zone, b: Block)
    reads z
  {
    z.Freeable(b) && b.pfn < z.mem.Length
  }

  /** The zone is where the run recorded so far has brought it, and callers hold `live`. */
  ghost predicate Serving(z: Zone, live: set<Block>, s: seq<Sys>, calls: seq<Call>, start: Partition)
    reads z, z.mem, z.area, z.count
  {
    && z.Valid() && z.physmapReady && |s| == |calls| + 1 && Run(s, calls)
    && s[0] == Sys(start, {}) && s[|s| - 1] == Sys(z.owner, live)
    && LiveApart(live) && forall b :: b in live ==> Held(z, b)
  }

  /** Callers that ask for blocks and give back only what they hold: the zone answers every request, in
      order, and what it does is a run that ends with the pages it has free and the blocks they hold. */
  method Serve(z: Zone, requests: seq<Request>) returns (live: set<Block>, ghost s: seq<Sys>, ghost calls: seq<Call>)
    requires z.Valid() && z.physmapReady
    modifies z`lists, z`owner, z`nrFree, z.mem, z.area, z.count
    ensures z.Valid() && Run(s, calls)
    ensures |calls| == |requests| && Answers(calls, requests)
    ensures |s| > 0 && s[0] == Sys(old(z.owner), {}) && s[|s| - 1] == Sys(z.owner, live)
    ensures z.Legacy() == old(z.Legacy())
  {
    live := {};
    s, calls := [Sys(z.owner, {})], [];
    live, s, calls := ServeAll(z, requests, live, s, calls, z.owner);
  }

  method ServeAll(z: Zone, requests: seq<Request>, live: set<Block>, ghost s: seq<Sys>, ghost calls: seq<Call>,
                  ghost start: Partition)
    returns (live': set<Block>, ghost s': seq<Sys>, ghost calls': seq<Call>)
    requires Serving(z, live, s, calls, start) && calls == []
    modifies z`lists, z`owner, z`nrFree, z.mem, z.area, z.count
    ensures Serving(z, live', s', calls', start)
    ensures |calls'| == |requests| && Answers(calls', requests)
    ensures z.Legacy() == old(z.Legacy())
  {
    hide Serving;
    live', s', calls' := live, s, calls;
    for i := 0 to |requests|
      invariant Serving(z, live', s', calls', start)
      invariant |calls'| == i && Answers(calls', requests)
      invariant z.Legacy() == old(z.Legacy())
    {
      if requests[i].Want? {
        live', s', calls' := ServeWant(z, requests[i].order, live', s', calls', start);
      } else if requests[i].b in live' {
        live', s', calls' := ServeGiveBack(z, requests[i].b, live', s', calls', start);
      } else {
        s', calls' := ServeNothing(z, requests[i].b, live', s', calls', start);
      }
    }
  }

  method ServeWant(z: Zone, order: nat, live: set<Block>, ghost s: seq<Sys>, ghost calls: seq<Call>,
                   ghost start: Partition)
    returns (live': set<Block>, ghost s': seq<Sys>, ghost calls': seq<Call>)
    requires Serving(z, live, s, calls, start)
    modifies z`lists, z`owner, z`nrFree, z.mem, z.area, z.count
    ensures Serving(z, live', s', calls', start)
    ensures |calls'| == |calls| + 1 && calls <= calls' && Asked(calls'[|calls|]) == Want(order)
    ensures z.Legacy() == old(z.Legacy())
  {
    hide Run, LegacyOf, MarksOf, HasRun;
    z.ZoneFacts();
    var r := z.AllocPages(order);
    z.ZoneFacts();
    live' := live;
    if r.Allocated? {
      var b := Block(r.pfn, order);
      live' := live + {b};
      AllocatedIsHeld(z, old(z.owner), live, b);
    }
    calls', s' := calls + [Alloc(order, r)], s + [Sys(z.owner, live')];
    RunExtends(s, calls, Alloc(order, r), Sys(z.owner, live'));
  }

  lemma AllocatedIsHeld(z: Zone, w: Partition, live: set<Block>, b: Block)
    requires b.order < MAX_ORDER && Aligned(b.pfn, b.order) && Pages(b) <= w.Keys <= z.managed
    requires z.owner.Keys == w.Keys - Pages(b) && z.basePfn + z.nrPages <= z.mem.Length
    requires forall x :: x in w ==> z.basePfn <= x < z.basePfn + z.nrPages
    requires LiveApart(live) && forall c :: c in live ==> CanFree(w, z.managed, z.basePfn, z.basePfn + z.nrPages, c)
                                                            && c.pfn < z.mem.Length
    ensures LiveApart(live + {b}) && forall c :: c in live + {b} ==> Held(z, c)
  {
    assert b.pfn in Pages(b) && b.pfn + Pow2(b.order) - 1 in Pages(b);
  }

  lemma RunExtends(s: seq<Sys>, calls: seq<Call>, c: Call, s': Sys)
    requires Run(s, calls) && |s| == |calls| + 1 && Step(s[|s| - 1], c, s')
    ensures Run(s + [s'], calls + [c])
  {
    var t, d := s + [s'], calls + [c];
    forall i | 0 <= i < |d| ensures Step(t[i], d[i], t[i + 1]) {
      if i < |calls| {
        assert Step(s[i], calls[i], s[i + 1]);
      }
    }
  }

  method ServeGiveBack(z: Zone, b: Block, live: set<Block>, ghost s: seq<Sys>, ghost calls: seq<Call>,
                       ghost start: Partition)
    returns (live': set<Block>, ghost s': seq<Sys>, ghost calls': seq<Call>)
    requires Serving(z, live, s, calls, start) && b in live
    modifies z`lists, z`owner, z`nrFree, z.mem, z.area, z.count
    ensures Serving(z, live', s', calls', start)
    ensures calls' == calls + [Release(b)]
    ensures z.Legacy() == old(z.Legacy())
  {
    hide LegacyOf, MarksOf, HasRun, Answers;
    assert Held(z, b) && b.pfn in Pages(b);
    z.PageIsPlain(b.pfn);
    var r := z.FreePages(To(b.pfn), b.order);
    assert r.Freed?;
    z.ZoneFacts();
    live' := live - {b};
    calls', s' := calls + [Release(b)], s + [Sys(z.owner, live')];
    RunExtends(s, calls, Release(b), Sys(z.owner, live'));
  }

  ghost method ServeNothing(z: Zone, b: Block, live: set<Block>, s: seq<Sys>, calls: seq<Call>, start: Partition)
    returns (s': seq<Sys>, calls': seq<Call>)
    requires Serving(z, live, s, calls, start) && b !in live
    ensures Serving(z, live, s', calls', start)
    ensures calls' == calls + [Refrain(b)]
  {
    z.ZoneFacts();
    calls', s' := calls + [Refrain(b)], s + [Sys(z.owner, live)];
    RunExtends(s, calls, Refrain(b), Sys(z.owner, live));
  }

  /** From the memory map through any requests: the pages boot released are all there, free or held; a
      request was refused exactly when the pages nobody held contained no aligned run of its size; and
      once nothing is held the free blocks are the very blocks boot left. */
  method BootAndServe(ranges: seq<Range>, maxPfn: nat, requests: seq<Request>)
    returns (z: Zone, live: set<Block>, ghost s: seq<Sys>, ghost calls: seq<Call>)
    requires ranges != [] && maxPfn > 0 && forall r :: r in ranges ==> EndPfn(r) <= maxPfn
    requires forall i, j :: 0 <= i < j < |ranges| ==> Apart(ranges[i], ranges[j])
    ensures fresh(z) && fresh(z.mem) && fresh(z.area) && fresh(z.count) && z.mem.Length == maxPfn
    ensures z.Valid() && |calls| == |requests| && Answers(calls, requests) && Run(s, calls)
    ensures |s| == |calls| + 1 && s[0].w.Keys == Released(ranges, |ranges|) && s[0].live == {}
    ensures s[|calls|] == Sys(z.owner, live)
    ensures |z.owner.Keys| + Sizes(live) == |Released(ranges, |ranges|)|
    ensures forall i :: 0 <= i < |calls| && calls[i].Alloc? && calls[i].order < MAX_ORDER ==>
              (calls[i].result.NoPage? <==> !HasRun(Released(ranges, |ranges|) - AllPages(s[i].live), calls[i].order))
    ensures live == {} ==> z.owner == s[0].w
    ensures forall p: nat :: p in z.Legacy() <==> p < maxPfn && InWindow(p) && Covered(ranges, |ranges|, p)
  {
    hide Step, Run, Answers, Accounted, Canonical, Released, HasRun, AllPages, Sizes, Apart, EndPfn;
    z := MmInit(ranges, maxPfn);
    z.ZoneFacts();
    AllFreeIsAccounted(z.owner, Released(ranges, |ranges|));
    LegacyAfterBoot(z, ranges);
    live, s, calls := Serve(z, requests);
    ServedRun(s, calls, Released(ranges, |ranges|));
  }

  lemma LegacyAfterBoot(z: Zone, ranges: seq<Range>)
    requires forall p: nat :: p < z.mem.Length ==> z.Marks()[p] == BootMark(ranges, |ranges|, p)
    ensures forall p: nat :: p in z.Legacy() <==> p < z.mem.Length && InWindow(p) && Covered(ranges, |ranges|, p)
  {
    hide BootMark, InWindow, Covered;
    forall p: nat ensures p in z.Legacy() <==> p < z.mem.Length && InWindow(p) && Covered(ranges, |ranges|, p) {
      BootMarks(ranges, p);
    }
  }

  /** Whatever is requested after boot, the free of a usable page of the window is halted as misrouted. */
  method FreeOfOlderPool(ranges: seq<Range>, maxPfn: nat, requests: seq<Request>, pfn: nat, order: nat)
    returns (z: Zone, r: FreeResult)
    requires ranges != [] && maxPfn > 0 && forall r :: r in ranges ==> EndPfn(r) <= maxPfn
    requires forall i, j :: 0 <= i < j < |ranges| ==> Apart(ranges[i], ranges[j])
    requires pfn < maxPfn && order < MAX_ORDER && InWindow(pfn)
    ensures r.MisroutedHalt? <==> Covered(ranges, |ranges|, pfn)
  {
    hide Apart, EndPfn, Covered, InWindow, Run, Answers, Released, HasRun, AllPages, Sizes, LegacyOf, MarksOf;
    ghost var s, calls;
    var live;
    z, live, s, calls := BootAndServe(ranges, maxPfn, requests);
    z.LegacyPage(pfn);
    r := z.FreePages(To(pfn), order);
  }

  lemma AllFreeIsAccounted(w: Partition, managed: set<nat>)
    requires Canonical(w) && w.Keys == managed
    ensures Accounted(Sys(w, {}), managed)
  {
    hide Canonical;
  }

  /** What the run theorems say of a whole run from a state in which nothing is held. */
  lemma ServedRun(s: seq<Sys>, calls: seq<Call>, managed: set<nat>)
    requires Run(s, calls) && Accounted(s[0], managed) && s[0].live == {}
    ensures |s[|calls|].w.Keys| + Sizes(s[|calls|].live) == |managed|
    ensures forall i :: 0 <= i < |calls| && calls[i].Alloc? && calls[i].order < MAX_ORDER ==>
              (calls[i].result.NoPage? <==> !HasRun(managed - AllPages(s[i].live), calls[i].order))
    ensures s[|calls|].live == {} ==> s[|calls|].w == s[0].w
  {
    hide Step, Accounted;
    PagesAreConserved(s, calls, managed, |calls|);
    forall i | 0 <= i < |calls| && calls[i].Alloc? && calls[i].order < MAX_ORDER
      ensures calls[i].result.NoPage? <==> !HasRun(managed - AllPages(s[i].live), calls[i].order)
    {
      FailureMeansNoRun(s, calls, managed, i);
    }
    if s[|calls|].live == {} {
      AllFreedRestoresBlocks(s, calls, managed, |calls|);
    }
  }

  // ---- The double free that is not stopped ----------------------------------------------

  /** A machine with two pages above the identity map: after boot both are free, in one block. */
  method TwoPages() returns (z: Zone)
    ensures z.Valid() && fresh(z) && fresh(z.mem) && fresh(z.area) && fresh(z.count)
    ensures z.owner.Keys == {INNER - 1, INNER} && !IsHead(z.owner, INNER) && INNER < z.mem.Length
  {
    hide Released;
    var ranges := [Range(IDENT_MAP_LIMIT, 2 * PAGE_SIZE)];
    z := MmInit(ranges, INNER + 1);
    BothReleased(ranges);
    z.ZoneFacts();
    TwoPagesAreOneBlock(z.owner);
  }

  lemma BothReleased(ranges: seq<Range>)
    requires ranges == [Range(IDENT_MAP_LIMIT, 2 * PAGE_SIZE)]
    ensures Released(ranges, 1) == {INNER - 1, INNER}
  {
    hide Released;
    assert FirstPfn(ranges[0]) == INNER - 1 && EndPfn(ranges[0]) == INNER + 1;
  }

  /** The second of them. */
  const INNER: nat := 0x4_0001

  lemma TwoPagesAreOneBlock(w: Partition)
    requires Canonical(w) && INNER - 1 in w && INNER in w
    ensures !IsHead(w, INNER)
  {
    var b := Block(INNER - 1, 1);
    assert Pow2(1) == 2 && Aligned(b.pfn, 1);
    assert In(INNER, b) && Pages(b) == {INNER - 1, INNER};
    RunInOneBlock(w, b);
    assert In(b.pfn, w[b.pfn]);
  }

  /** Freeing the second page a second time, in the state `before`, passes the guard and marks it as the
      start of a free block of its own; no free lists explain the page array that this leaves. */
  method DoubleFreeOfInnerPage() returns (z: Zone, ghost before: State, r: FreeResult)
    ensures Rep(before, z.basePfn, z.basePfn + z.nrPages) && INNER < |before.pages| == z.mem.Length
    ensures before.owner.Keys == {INNER - 1, INNER} && !IsHead(before.owner, INNER) && !before.pages[INNER].free
    ensures r.Freed? && z.mem[..] == before.pages[INNER := z.mem[INNER]] && z.mem[INNER].free
    ensures !z.Readable()
  {
    z := TwoPages();
    before := z.Snap();
    z.FlagMarksHeads(INNER);
    r := z.FreePages(To(INNER), 0);
  }
}
