/** From the boot memory map to a zone that owns exactly the usable pages above the identity map. */
module BuddyBoot {
  import opened BuddyState
  import opened BuddyZone

  const MM_MAX_RANGES: nat := 32

  /** The ranges share no page above the identity map. */
  ghost predicate Apart(r: Range, s: Range) {
    forall p: nat :: FirstPfn(r) <= p < EndPfn(r) && FirstPfn(s) <= p < EndPfn(s) ==> p * PAGE_SIZE < IDENT_MAP_LIMIT
  }

  /** The page lies wholly inside the bytes `[base, base + len)`. */
  predicate WholePage(p: nat, base: nat, len: nat) {
    base <= p * PAGE_SIZE && (p + 1) * PAGE_SIZE <= base + len
  }

  class BootMap {
    var ranges: seq<Range>
    var maxPfn: nat

    ghost predicate Valid()
      reads this
    {
      |ranges| <= MM_MAX_RANGES && forall r :: r in ranges ==> FirstPfn(r) < EndPfn(r) <= maxPfn
    }

    constructor ()
      ensures Valid() && ranges == [] && maxPfn == 0
    {
      ranges, maxPfn := [], 0;
    }

    /** `mm_note_usable`: record the whole pages of a usable range, if there is room and any. */
    method NoteUsable(base: nat, len: nat)
      requires Valid()
      modifies this
      ensures Valid()
      ensures ranges == old(ranges) ==> maxPfn == old(maxPfn)
      ensures ranges == old(ranges) ==> |ranges| == 32 || forall p: nat :: !WholePage(p, base, len)
      ensures ranges != old(ranges) ==> |ranges| == |old(ranges)| + 1 && ranges[..|ranges| - 1] == old(ranges)
      ensures ranges != old(ranges) ==>
                var r := ranges[|ranges| - 1];
                && (forall p: nat :: FirstPfn(r) <= p < EndPfn(r) <==> WholePage(p, base, len))
                && maxPfn == if EndPfn(r) > old(maxPfn) then EndPfn(r) else old(maxPfn)
    {
      if |ranges| >= MM_MAX_RANGES {
        return;
      }
      var b := (base + 0xFFF) / PAGE_SIZE * PAGE_SIZE;
      var e := (base + len) / PAGE_SIZE * PAGE_SIZE;
      PagesInside(base, len);
      if e <= b {
        return;
      }
      ranges := ranges + [Range(b, e - b)];
      if e > maxPfn * PAGE_SIZE {
        maxPfn := e / PAGE_SIZE;
      }
    }
  }

  lemma PagesInside(base: nat, len: nat)
    ensures forall p: nat :: (base + 0xFFF) / PAGE_SIZE <= p < (base + len) / PAGE_SIZE <==> WholePage(p, base, len)
  {
  }

  /** All pages of the buddy are free: the state throughout the boot. */
  ghost predicate AllFree(z: Zone)
    reads z, z.mem, z.area, z.count
  {
    z.Valid() && z.basePfn == 0 && z.owner.Keys == z.managed
  }

  /** The page lies in the part of memory that the older frame pool keeps. */
  predicate InWindow(pfn: nat): (b: bool)
    ensures b <==> 0x1000 <= pfn < 0x4_0000
  {
    FRAME_POOL_BASE <= pfn * PAGE_SIZE < IDENT_MAP_LIMIT
  }

  /** What the release loop makes of the mark of a usable page. */
  function Usable(pfn: nat, m: Mark): Mark {
    if pfn * PAGE_SIZE < FRAME_POOL_BASE then m else Mark(InWindow(pfn), InWindow(pfn), m.refcount)
  }

  /** One of the first `n` ranges holds the page. */
  ghost predicate Covered(ranges: seq<Range>, n: nat, pfn: nat)
    requires n <= |ranges|
  {
    exists i :: 0 <= i < n && FirstPfn(ranges[i]) <= pfn < EndPfn(ranges[i])
  }

  /** The mark of a page once the first `n` ranges have been released. */
  ghost function BootMark(ranges: seq<Range>, n: nat, pfn: nat): Mark
    requires n <= |ranges|
  {
    if Covered(ranges, n, pfn) then Usable(pfn, Mark(false, true, 0)) else Mark(false, true, 0)
  }

  /** A usable page goes to the buddy, to the older pool or, below that pool, to nobody. */
  method ReleaseOne(z: Zone, pfn: nat)
    requires AllFree(z) && pfn < z.nrPages && pfn !in z.managed
    modifies z, z.mem, z.area, z.count
    ensures AllFree(z) && z.managed == old(z.managed) + OwnPage(pfn)
    ensures pfn < z.mem.Length && z.Marks() == old(z.Marks())[pfn := Usable(pfn, old(z.Marks())[pfn])]
  {
    z.ZoneFacts();
    var pa := pfn * PAGE_SIZE;
    if FRAME_POOL_BASE <= pa < IDENT_MAP_LIMIT {
      z.MarkLegacy(pfn);
    } else if pa >= FRAME_POOL_BASE {
      z.ReleasePage(pfn);
    }
  }

  method ReleaseRange(z: Zone, r: Range)
    requires AllFree(z) && EndPfn(r) <= z.nrPages
    requires forall p :: FirstPfn(r) <= p < EndPfn(r) ==> p !in z.managed
    modifies z, z.mem, z.area, z.count
    ensures AllFree(z) && z.managed == old(z.managed) + ReleasedIn(r, EndPfn(r))
    ensures forall p: nat :: p < z.mem.Length ==>
              z.Marks()[p] == if FirstPfn(r) <= p < EndPfn(r) then Usable(p, old(z.Marks())[p]) else old(z.Marks())[p]
  {
    hide AllFree, ReleasedIn, OwnPage, MarksOf, Usable;
    ghost var m := z.managed;
    var pfn, end := FirstPfn(r), EndPfn(r);
    while pfn < end
      invariant FirstPfn(r) <= pfn <= end
      invariant AllFree(z)
      invariant z.managed == m + ReleasedIn(r, pfn)
      invariant forall p: nat :: p < z.mem.Length ==>
                  z.Marks()[p] == if FirstPfn(r) <= p < pfn then Usable(p, old(z.Marks())[p]) else old(z.Marks())[p]
    {
      AddNext(m, r, pfn);
      ReleaseOne(z, pfn);
      pfn := pfn + 1;
    }
  }

  lemma AddNext(s: set<nat>, r: Range, pfn: nat)
    requires FirstPfn(r) <= pfn
    ensures s + ReleasedIn(r, pfn) + OwnPage(pfn) == s + ReleasedIn(r, pfn + 1)
    ensures pfn !in ReleasedIn(r, pfn)
  {
  }

  lemma NotYetReleased(ranges: seq<Range>, i: nat)
    requires i < |ranges|
    requires forall i, j :: 0 <= i < j < |ranges| ==> Apart(ranges[i], ranges[j])
    ensures forall p :: FirstPfn(ranges[i]) <= p < EndPfn(ranges[i]) ==> p !in Released(ranges, i)
  {
    assert forall k :: 0 <= k < i ==> Apart(ranges[k], ranges[i]);
  }

  /** `mm_init`, from the recorded ranges on. Ranges that share a page above the identity map would
      release it twice; `MmInitOverlapping` says what that leads to. */
  method MmInit(ranges: seq<Range>, maxPfn: nat) returns (z: Zone)
    requires forall r :: r in ranges ==> EndPfn(r) <= maxPfn
    requires forall i, j :: 0 <= i < j < |ranges| ==> Apart(ranges[i], ranges[j])
    ensures fresh(z) && fresh(z.mem) && fresh(z.area) && fresh(z.count) && z.Valid()
    ensures z.basePfn == 0 && z.nrPages == maxPfn && (z.physmapReady <==> ranges != [] && maxPfn > 0)
    ensures z.owner.Keys == z.managed == Released(ranges, |ranges|)
    ensures z.mem.Length == maxPfn && forall p: nat :: p < maxPfn ==> z.Marks()[p] == BootMark(ranges, |ranges|, p)
  {
    hide BootMark;
    z := new Zone(maxPfn, ranges != [] && maxPfn > 0);
    forall p: nat ensures BootMark(ranges, 0, p) == Mark(false, true, 0) {
      NothingCovered(ranges, p);
    }
    ReleaseAll(z, ranges);
  }

  lemma NothingCovered(ranges: seq<Range>, p: nat)
    ensures BootMark(ranges, 0, p) == Mark(false, true, 0)
  {
  }

  /** One more range: a page that was marked before gets the mark it has. */
  lemma CoverMore(ranges: seq<Range>, n: nat, p: nat)
    requires n < |ranges|
    ensures BootMark(ranges, n + 1, p) ==
              if FirstPfn(ranges[n]) <= p < EndPfn(ranges[n]) then Usable(p, BootMark(ranges, n, p))
              else BootMark(ranges, n, p)
  {
    hide FirstPfn, EndPfn;
  }

  /** After boot exactly the usable pages of the window are legacy, and exactly the pages the buddy does
      not have are reserved. */
  lemma BootMarks(ranges: seq<Range>, p: nat)
    ensures BootMark(ranges, |ranges|, p).legacy <==> InWindow(p) && Covered(ranges, |ranges|, p)
    ensures BootMark(ranges, |ranges|, p).reserved <==> p !in Released(ranges, |ranges|)
    ensures BootMark(ranges, |ranges|, p).refcount == 0
  {
    hide FirstPfn, EndPfn;
  }

  method ReleaseAll(z: Zone, ranges: seq<Range>)
    requires AllFree(z) && z.managed == {}
    requires forall r :: r in ranges ==> EndPfn(r) <= z.nrPages
    requires forall i, j :: 0 <= i < j < |ranges| ==> Apart(ranges[i], ranges[j])
    modifies z, z.mem, z.area, z.count
    requires forall p: nat :: p < z.mem.Length ==> z.Marks()[p] == BootMark(ranges, 0, p)
    ensures AllFree(z) && z.managed == Released(ranges, |ranges|)
    ensures forall p: nat :: p < z.mem.Length ==> z.Marks()[p] == BootMark(ranges, |ranges|, p)
  {
    hide AllFree, Released, ReleasedIn, MarksOf, BootMark, Usable, Apart, FirstPfn, EndPfn;
    for i := 0 to |ranges|
      invariant AllFree(z) && z.managed == Released(ranges, i)
      invariant forall p: nat :: p < z.mem.Length ==> z.Marks()[p] == BootMark(ranges, i, p)
    {
      assert ranges[i] in ranges;
      NotYetReleased(ranges, i);
      forall p: nat ensures BootMark(ranges, i + 1, p) ==
              if FirstPfn(ranges[i]) <= p < EndPfn(ranges[i]) then Usable(p, BootMark(ranges, i, p))
              else BootMark(ranges, i, p) {
        CoverMore(ranges, i, p);
      }
      ReleaseRange(z, ranges[i]);
    }
  }

  /** One of the ranges gives page `pfn` to the buddy. */
  predicate GivenBy(ranges: seq<Range>, pfn: nat) {
    && pfn * PAGE_SIZE >= IDENT_MAP_LIMIT
    && exists i :: 0 <= i < |ranges| && FirstPfn(ranges[i]) <= pfn < EndPfn(ranges[i])
  }

  /** `mm_init` when the range behind `ranges` shares a page above the identity map with one of them:
      its release comes to the first such page, and from then on no free lists explain the page array. */
  method MmInitOverlapping(ranges: seq<Range>, s: Range, maxPfn: nat) returns (z: Zone, pfn: nat)
    requires EndPfn(s) <= maxPfn && forall r :: r in ranges ==> EndPfn(r) <= maxPfn
    requires forall i, j :: 0 <= i < j < |ranges| ==> Apart(ranges[i], ranges[j])
    requires exists r :: r in ranges && !Apart(r, s)
    ensures FirstPfn(s) <= pfn < EndPfn(s) && GivenBy(ranges, pfn)
    ensures forall p :: FirstPfn(s) <= p < pfn ==> !GivenBy(ranges, p)
    ensures !z.Readable()
  {
    hide AllFree, Apart, GivenBy, EndPfn, FirstPfn;
    z := MmInit(ranges, maxPfn);
    ghost var shared := SharedPage(ranges, s);
    AllIsFree(z);
    pfn := ReleaseToShared(z, ranges, s, shared);
  }

  lemma AllIsFree(z: Zone)
    requires z.Valid() && z.basePfn == 0 && z.owner.Keys == z.managed
    ensures AllFree(z)
  {
  }

  /** The release loop of one range, up to the first page that an earlier range has released. */
  method ReleaseToShared(z: Zone, ranges: seq<Range>, s: Range, ghost shared: nat) returns (pfn: nat)
    requires AllFree(z) && z.managed == Released(ranges, |ranges|) && EndPfn(s) <= z.nrPages
    requires FirstPfn(s) <= shared < EndPfn(s) && GivenBy(ranges, shared)
    modifies z, z.mem, z.area, z.count
    ensures FirstPfn(s) <= pfn <= shared && GivenBy(ranges, pfn)
    ensures forall p :: FirstPfn(s) <= p < pfn ==> !GivenBy(ranges, p)
    ensures !z.Readable()
  {
    hide AllFree, GivenBy, Released, ReleasedIn, OwnPage, EndPfn, FirstPfn;
    ghost var m := z.managed;
    pfn := FirstPfn(s);
    while !GivenBy(ranges, pfn)
      invariant FirstPfn(s) <= pfn <= shared
      invariant AllFree(z) && z.managed == m + ReleasedIn(s, pfn)
      invariant forall p :: FirstPfn(s) <= p < pfn ==> !GivenBy(ranges, p)
      decreases shared - pfn
    {
      AddNext(m, s, pfn);
      GivenIsReleased(ranges, pfn);
      ReleaseOne(z, pfn);
      pfn := pfn + 1;
    }
    GivenIsReleased(ranges, pfn);
    OwnedIsFree(z);
    z.ReleaseAgain(pfn);
  }

  lemma GivenIsReleased(ranges: seq<Range>, pfn: nat)
    ensures GivenBy(ranges, pfn) <==> pfn in Released(ranges, |ranges|)
  {
  }

  lemma OwnedIsFree(z: Zone)
    requires AllFree(z)
    ensures z.Valid() && z.owner.Keys == z.managed
  {
  }

  lemma SharedPage(ranges: seq<Range>, s: Range) returns (p: nat)
    requires exists r :: r in ranges && !Apart(r, s)
    ensures FirstPfn(s) <= p < EndPfn(s) && GivenBy(ranges, p)
  {
    var r :| r in ranges && !Apart(r, s);
    p :| FirstPfn(r) <= p < EndPfn(r) && FirstPfn(s) <= p < EndPfn(s) && p * PAGE_SIZE >= IDENT_MAP_LIMIT;
    var i :| 0 <= i < |ranges| && ranges[i] == r;
  }
}
