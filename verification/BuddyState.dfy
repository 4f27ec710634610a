/** What the page array, the list heads and the counters of a zone say: free lists threaded
    through the pages, tied to the partition of the free pages they stand for. */
module BuddyState {
  import opened BuddyBlocks
  import opened Powers

  datatype Link = Null | To(pfn: nat)

  /** One `struct page`: the flags the allocator reads, and its free-list fields. A legacy page
      belongs to the older frame pool, which keeps its own meaning of the free flag. */
  datatype Page = Page(free: bool, reserved: bool, legacy: bool, order: nat, refcount: nat, next: Link)

  /** What is marked on a page apart from its free-list fields. */
  datatype Mark = Mark(legacy: bool, reserved: bool, refcount: nat)

  function MarksOf(pages: seq<Page>): (marks: seq<Mark>)
    ensures |marks| == |pages|
    ensures forall p :: 0 <= p < |pages| ==> marks[p] == Mark(pages[p].legacy, pages[p].reserved, pages[p].refcount)
  {
    seq(|pages|, p requires 0 <= p < |pages| => Mark(pages[p].legacy, pages[p].reserved, pages[p].refcount))
  }

  lemma MarkUpdate(pages: seq<Page>, p: nat, v: Page)
    requires p < |pages|
    ensures MarksOf(pages[p := v]) == MarksOf(pages)[p := Mark(v.legacy, v.reserved, v.refcount)]
  {
  }

  function LegacyOf(marks: seq<Mark>): set<nat> {
    set p: nat | p < |marks| && marks[p].legacy
  }

  lemma SameLegacy(marks: seq<Mark>, p: nat, m: Mark)
    requires p < |marks| && m.legacy == marks[p].legacy
    ensures LegacyOf(marks[p := m]) == LegacyOf(marks)
  {
  }

  lemma SameMark(pages: seq<Page>, p: nat, v: Page)
    requires p < |pages|
    requires v.legacy == pages[p].legacy && v.reserved == pages[p].reserved && v.refcount == pages[p].refcount
    ensures MarksOf(pages[p := v]) == MarksOf(pages)
  {
  }

  /** `lists` and `owner` are what the other three components encode. */
  datatype State = State(pages: seq<Page>, area: seq<Link>, count: seq<nat>,
                         lists: seq<seq<nat>>, owner: Partition)


  function LinkAt(l: seq<nat>, i: nat): Link {
    if i < |l| then To(l[i]) else Null
  }

  ghost predicate LinkOk(pages: seq<Page>, l: seq<nat>, i: nat)
    requires i < |l| && l[i] < |pages|
  {
    pages[l[i]].next == LinkAt(l, i + 1)
  }

  ghost predicate Chain(pages: seq<Page>, head: Link, l: seq<nat>) {
    && head == LinkAt(l, 0)
    && (forall i :: 0 <= i < |l| ==> l[i] < |pages|)
    && (forall i :: 0 <= i < |l| ==> LinkOk(pages, l, i))
    && (forall i, j :: 0 <= i < j < |l| ==> l[i] != l[j])
  }

  ghost predicate IsHead(w: Partition, p: nat) {
    p in w && w[p].pfn == p
  }

  ghost predicate ListOk(s: State, o: nat)
    requires o < |s.area| && o < |s.count| && o < |s.lists|
  {
    && Chain(s.pages, s.area[o], s.lists[o])
    && s.count[o] == |s.lists[o]| % U32
    && forall p :: p in s.lists[o] <==> IsBlock(s.owner, Block(p, o))
  }

  /** The free flag of a page that is not legacy says exactly that a free block starts there. */
  ghost predicate FlagOk(s: State, p: nat)
    requires p < |s.pages|
  {
    && (!s.pages[p].legacy ==> (s.pages[p].free <==> IsHead(s.owner, p)))
    && (IsHead(s.owner, p) ==> s.pages[p].order == s.owner[p].order)
    && (p in s.owner ==> !s.pages[p].legacy)
  }

  ghost predicate InZone(s: State, lo: nat, hi: nat) {
    hi <= |s.pages| && forall x :: x in s.owner ==> lo <= x < hi
  }

  ghost predicate Rep(s: State, lo: nat, hi: nat) {
    && |s.area| == |s.count| == |s.lists| == MAX_ORDER
    && Canonical(s.owner)
    && InZone(s, lo, hi)
    && (forall o :: 0 <= o < MAX_ORDER ==> ListOk(s, o))
    && (forall p :: 0 <= p < |s.pages| ==> FlagOk(s, p))
  }

  /** The buddy's own pages: no legacy page, no reserved page, and every free page among them. */
  ghost predicate Owns(s: State, managed: set<nat>) {
    && s.owner.Keys <= managed
    && forall p :: p in managed ==> p < |s.pages| && !s.pages[p].legacy && !s.pages[p].reserved
  }

  /** A block that may be put on a free list as it is. */
  ghost predicate Insertable(s: State, lo: nat, hi: nat, b: Block) {
    && b.order < MAX_ORDER && Aligned(b.pfn, b.order)
    && lo <= b.pfn && b.pfn + Pow2(b.order) <= hi <= |s.pages|
    && Pages(b) !! s.owner.Keys
    && (forall x :: x in Pages(b) ==> !s.pages[x].legacy)
  }

  ghost function Push(s: State, b: Block): State
    requires b.pfn < |s.pages| && b.order < |s.area| && b.order < |s.count| && b.order < |s.lists|
  {
    State(s.pages[b.pfn := s.pages[b.pfn].(free := true, order := b.order, next := s.area[b.order])],
          s.area[b.order := To(b.pfn)],
          s.count[b.order := (s.count[b.order] + 1) % U32],
          s.lists[b.order := [b.pfn] + s.lists[b.order]],
          AddBlock(s.owner, b))
  }

  lemma PushKeepsList(s: State, lo: nat, hi: nat, b: Block, o: nat)
    requires Rep(s, lo, hi) && Insertable(s, lo, hi, b) && o < MAX_ORDER
    requires b.order < MAX_ORDER - 1 ==> !IsBlock(s.owner, Buddy(b))
    ensures ListOk(Push(s, b), o)
  {
    InsertBlock(s.owner, b);
    assert In(b.pfn, b) && !IsHead(s.owner, b.pfn);
    assert ListOk(s, o);
    if o == b.order {
      PushOwnList(s, b);
    } else {
      PushOtherList(s, b, o);
    }
  }

  lemma PushOwnList(s: State, b: Block)
    requires b.pfn < |s.pages| && b.order < |s.area| && b.order < |s.count| && b.order < |s.lists|
    requires ListOk(s, b.order) && !IsHead(s.owner, b.pfn)
    requires forall c :: IsBlock(AddBlock(s.owner, b), c) <==> IsBlock(s.owner, c) || c == b
    ensures ListOk(Push(s, b), b.order)
  {
    hide LinkOk, Chain, AddBlock;
    var l := s.lists[b.order];
    assert b.pfn in l <==> IsBlock(s.owner, Block(b.pfn, b.order));
    PushChain(s.pages, s.area[b.order], l, b.pfn, Push(s, b).pages[b.pfn]);
    forall p ensures p in [b.pfn] + l <==> IsBlock(Push(s, b).owner, Block(p, b.order)) {
      assert p in [b.pfn] + l <==> p == b.pfn || p in l;
    }
  }

  lemma PushOtherList(s: State, b: Block, o: nat)
    requires b.pfn < |s.pages| && b.order < |s.area| && b.order < |s.count| && b.order < |s.lists|
    requires o < |s.area| && o < |s.count| && o < |s.lists| && o != b.order
    requires ListOk(s, o) && !IsHead(s.owner, b.pfn)
    requires forall c :: IsBlock(AddBlock(s.owner, b), c) <==> IsBlock(s.owner, c) || c == b
    ensures ListOk(Push(s, b), o)
  {
    hide LinkOk, Chain, AddBlock;
    assert b.pfn in s.lists[o] <==> IsBlock(s.owner, Block(b.pfn, o));
    OtherChain(s.pages, s.area[o], s.lists[o], b.pfn, Push(s, b).pages[b.pfn]);
  }

  lemma PushKeepsRep(s: State, lo: nat, hi: nat, b: Block)
    requires Rep(s, lo, hi) && Insertable(s, lo, hi, b)
    requires b.order < MAX_ORDER - 1 ==> !IsBlock(s.owner, Buddy(b))
    ensures Rep(Push(s, b), lo, hi)
  {
    var t := Push(s, b);
    InsertBlock(s.owner, b);
    InsertWellFormed(s.owner, b);
    assert In(b.pfn, b);
    assert !IsHead(s.owner, b.pfn);
    forall o | 0 <= o < MAX_ORDER ensures ListOk(t, o) {
      PushKeepsList(s, lo, hi, b, o);
    }
    forall p | 0 <= p < |t.pages| ensures FlagOk(t, p) {
      assert FlagOk(s, p);
      if In(p, b) && p != b.pfn {
        assert p in Pages(b);
      }
    }
  }

  lemma PushChain(pages: seq<Page>, head: Link, l: seq<nat>, p: nat, v: Page)
    requires Chain(pages, head, l) && p < |pages| && p !in l && v.next == head
    ensures Chain(pages[p := v], To(p), [p] + l)
  {
    var m := [p] + l;
    var after := pages[p := v];
    forall i | 0 <= i < |m| ensures LinkOk(after, m, i) {
      if i > 0 {
        assert LinkOk(pages, l, i - 1) && m[i] == l[i - 1] && l[i - 1] in l;
      }
    }
  }

  lemma OtherChain(pages: seq<Page>, head: Link, l: seq<nat>, p: nat, v: Page)
    requires Chain(pages, head, l) && p < |pages| && p !in l
    ensures Chain(pages[p := v], head, l)
  {
    var after := pages[p := v];
    forall i | 0 <= i < |l| ensures LinkOk(after, l, i) {
      assert LinkOk(pages, l, i) && l[i] in l;
    }
  }

  ghost predicate ListInPages(s: State, o: nat)
    requires o < |s.lists|
  {
    forall k :: 0 <= k < |s.lists[o]| ==> s.lists[o][k] < |s.pages|
  }

  /** Take entry `i` of list `o` off the list: its predecessor's link, or the list head, skips it;
      its own free flag and link are cleared and its order becomes `order`. */
  ghost function Skip(s: State, o: nat, i: nat): seq<Page>
    requires o < |s.lists| && i < |s.lists[o]|
    requires ListInPages(s, o)
  {
    if i == 0 then s.pages
    else var q := s.lists[o][i - 1]; s.pages[q := s.pages[q].(next := s.pages[s.lists[o][i]].next)]
  }

  ghost function Unlink(s: State, o: nat, i: nat, order: nat): State
    requires o < |s.lists| && o < |s.area| && o < |s.count| && i < |s.lists[o]|
    requires ListInPages(s, o)
  {
    var l := s.lists[o];
    var p := l[i];
    var pages := Skip(s, o, i);
    State(pages[p := pages[p].(free := false, order := order, next := Null)],
          if i == 0 then s.area[o := s.pages[p].next] else s.area,
          s.count[o := (s.count[o] + U32 - 1) % U32],
          s.lists[o := l[..i] + l[i + 1..]],
          s.owner - Pages(Block(p, o)))
  }

  lemma UnlinkKeepsRep(s: State, lo: nat, hi: nat, o: nat, i: nat, order: nat)
    requires Rep(s, lo, hi) && o < MAX_ORDER && i < |s.lists[o]|
    ensures IsBlock(s.owner, Block(s.lists[o][i], o))
    ensures ListInPages(s, o)
    ensures Rep(Unlink(s, o, i, order), lo, hi)
  {
    assert ListOk(s, o);
    var l := s.lists[o];
    var p := l[i];
    var b := Block(p, o);
    assert p in l;
    var t := Unlink(s, o, i, order);
    RemoveBlock(s.owner, b);
    RemoveWellFormed(s.owner, b);
    BlockPagesFree(s.owner, b);
    assert In(p, b);
    forall o' | 0 <= o' < MAX_ORDER ensures ListOk(t, o') {
      assert ListOk(s, o');
      UnlinkList(s, o, i, order, o');
    }
    forall q | 0 <= q < |t.pages| ensures FlagOk(t, q) {
      assert FlagOk(s, q);
    }
  }

  lemma UnlinkList(s: State, o: nat, i: nat, order: nat, o': nat)
    requires o < |s.area| == |s.count| == |s.lists| && o' < |s.area| && i < |s.lists[o]|
    requires ListOk(s, o) && ListOk(s, o') && ListInPages(s, o)
    requires forall c :: IsBlock(s.owner - Pages(Block(s.lists[o][i], o)), c)
                         <==> IsBlock(s.owner, c) && c != Block(s.lists[o][i], o)
    ensures ListOk(Unlink(s, o, i, order), o')
  {
    var l := s.lists[o];
    var t := Unlink(s, o, i, order);
    if o == o' {
      UnlinkOwnChain(s, o, i, order);
      forall q ensures q in t.lists[o] <==> IsBlock(t.owner, Block(q, o)) {
        WithoutAt(l, i, q);
      }
      assert |t.lists[o]| == |l| - 1;
    } else {
      UnlinkOtherChain(s, o, i, order, o');
      assert l[i] in l;
      assert t.lists[o'] == s.lists[o'];
    }
  }

  lemma UnlinkOwnChain(s: State, o: nat, i: nat, order: nat)
    requires o < |s.area| == |s.count| == |s.lists| && i < |s.lists[o]| && ListOk(s, o)
    ensures ListInPages(s, o)
    ensures var t := Unlink(s, o, i, order); Chain(t.pages, t.area[o], t.lists[o])
  {
    var l := s.lists[o];
    assert LinkOk(s.pages, l, i);
    if i > 0 { assert LinkOk(s.pages, l, i - 1); }
    UnlinkChain(s.pages, s.area[o], l, i, Skip(s, o, i), Unlink(s, o, i, order).pages[l[i]]);
  }

  lemma UnlinkOtherChain(s: State, o: nat, i: nat, order: nat, o': nat)
    requires o < |s.area| == |s.count| == |s.lists| && o' < |s.area| && o != o' && i < |s.lists[o]|
    requires ListOk(s, o) && ListOk(s, o')
    ensures ListInPages(s, o)
    ensures var t := Unlink(s, o, i, order); Chain(t.pages, t.area[o'], t.lists[o'])
  {
    var l := s.lists[o];
    NotOnBoth(s, o, o', l[i]);
    var skipped := Skip(s, o, i);
    if i > 0 {
      NotOnBoth(s, o, o', l[i - 1]);
      OtherChain(s.pages, s.area[o'], s.lists[o'], l[i - 1], skipped[l[i - 1]]);
    }
    OtherChain(skipped, s.area[o'], s.lists[o'], l[i], Unlink(s, o, i, order).pages[l[i]]);
  }

  lemma NotOnBoth(s: State, o: nat, o': nat, p: nat)
    requires o < |s.area| == |s.count| == |s.lists| && o' < |s.area| && o != o'
    requires ListOk(s, o) && ListOk(s, o') && p in s.lists[o]
    ensures p !in s.lists[o']
  {
    assert IsBlock(s.owner, Block(p, o)) && !IsBlock(s.owner, Block(p, o'));
  }

  lemma WithoutAt(l: seq<nat>, i: nat, q: nat)
    requires i < |l| && forall j, k :: 0 <= j < k < |l| ==> l[j] != l[k]
    ensures q in l[..i] + l[i + 1..] <==> q in l && q != l[i]
  {
    var m := l[..i] + l[i + 1..];
    if q in l && q != l[i] {
      var k :| 0 <= k < |l| && l[k] == q;
      assert m[if k < i then k else k - 1] == q;
    }
    if q in m {
      var k :| 0 <= k < |m| && m[k] == q;
      assert q == l[if k < i then k else k + 1];
    }
  }

  lemma UnlinkChain(pages: seq<Page>, head: Link, l: seq<nat>, i: nat, skipped: seq<Page>, v: Page)
    requires Chain(pages, head, l) && i < |l|
    requires |skipped| == |pages|
    requires forall k :: 0 <= k < |pages| && !(i > 0 && k == l[i - 1]) ==> skipped[k] == pages[k]
    requires i > 0 ==> skipped[l[i - 1]].next == pages[l[i]].next
    ensures Chain(skipped[l[i] := v], if i == 0 then pages[l[0]].next else head, l[..i] + l[i + 1..])
  {
    var m := l[..i] + l[i + 1..];
    var after := skipped[l[i] := v];
    assert LinkOk(pages, l, i);
    forall j | 0 <= j < |m| ensures LinkOk(after, m, j) {
      var k := if j < i then j else j + 1;
      assert LinkOk(pages, l, k);
      assert m[j] == l[k] && l[k] != l[i];
      assert LinkAt(m, j + 1) == if j + 1 < i then To(l[j + 1]) else LinkAt(l, j + 2);
    }
  }

  lemma PushKeepsOwns(s: State, b: Block, managed: set<nat>)
    requires Owns(s, managed) && Pages(b) <= managed
    requires b.pfn < |s.pages| && b.order < |s.area| && b.order < |s.count| && b.order < |s.lists|
    ensures Owns(Push(s, b), managed)
  {
  }

  lemma UnlinkKeepsOwns(s: State, o: nat, i: nat, order: nat, managed: set<nat>)
    requires o < |s.area| == |s.count| == |s.lists| && i < |s.lists[o]| && ListInPages(s, o)
    requires Owns(s, managed)
    ensures Owns(Unlink(s, o, i, order), managed)
  {
    var t := Unlink(s, o, i, order);
    forall p | p in managed
      ensures p < |t.pages| && !t.pages[p].legacy && !t.pages[p].reserved
    {
      assert s.pages[p].legacy == Skip(s, o, i)[p].legacy && s.pages[p].reserved == Skip(s, o, i)[p].reserved;
    }
  }

  lemma UnlinkKeepsMarks(s: State, o: nat, i: nat, order: nat)
    requires o < |s.area| == |s.count| == |s.lists| && i < |s.lists[o]| && ListInPages(s, o)
    ensures MarksOf(Unlink(s, o, i, order).pages) == MarksOf(s.pages)
  {
    var p, pages := s.lists[o][i], Skip(s, o, i);
    if i > 0 {
      var q := s.lists[o][i - 1];
      SameMark(s.pages, q, s.pages[q].(next := s.pages[p].next));
    }
    SameMark(pages, p, pages[p].(free := false, order := order, next := Null));
  }

  /** Fields the lists do not use may change on a page that is not free. */
  lemma TouchKeepsRep(s: State, lo: nat, hi: nat, p: nat, v: Page)
    requires Rep(s, lo, hi) && p < |s.pages| && p !in s.owner
    requires v.free ==> v.legacy
    ensures Rep(s.(pages := s.pages[p := v]), lo, hi)
  {
    var t := s.(pages := s.pages[p := v]);
    forall o | 0 <= o < MAX_ORDER ensures ListOk(t, o) {
      assert ListOk(s, o);
      assert p !in s.lists[o] by {
        assert p in s.lists[o] <==> IsBlock(s.owner, Block(p, o));
      }
      OtherChain(s.pages, s.area[o], s.lists[o], p, v);
    }
    forall q | 0 <= q < |t.pages| ensures FlagOk(t, q) {
      assert FlagOk(s, q);
    }
  }

  /** A page whose flag and order do not say "free block of this order" starts no such block. */
  lemma NotThatBlock(s: State, lo: nat, hi: nat, b: Block)
    requires Rep(s, lo, hi)
    requires b.pfn < lo || b.pfn >= hi
             || (b.pfn < |s.pages| && !(s.pages[b.pfn].free && s.pages[b.pfn].order == b.order))
    ensures !IsBlock(s.owner, b)
  {
    if lo <= b.pfn < hi {
      assert FlagOk(s, b.pfn);
    }
  }

  lemma BlockInZone(s: State, lo: nat, hi: nat, b: Block)
    requires Rep(s, lo, hi) && IsBlock(s.owner, b)
    ensures lo <= b.pfn && b.pfn + Pow2(b.order) <= hi
  {
    BlockPagesFree(s.owner, b);
    var last := b.pfn + Pow2(b.order) - 1;
    assert In(last, b) && last in Pages(b);
  }

  // ---- States that no free lists explain ------------------------------------------------

  /** A head is still the head of its block in every reading of pages that agree with it there. */
  lemma HeadStays(s: State, t: State, lo: nat, hi: nat, h: nat)
    requires Rep(s, lo, hi) && Rep(t, lo, hi) && h < |s.pages| == |t.pages| && t.pages[h] == s.pages[h]
    ensures IsHead(s.owner, h) ==> IsHead(t.owner, h) && t.owner[h] == s.owner[h]
  {
    assert FlagOk(s, h) && FlagOk(t, h);
  }

  lemma HeadIsInside(s: State, lo: nat, hi: nat, p: nat)
    requires Rep(s, lo, hi) && p in s.owner
    ensures IsHead(s.owner, s.owner[p].pfn) && s.owner[s.owner[p].pfn] == s.owner[p]
    ensures In(p, s.owner[p]) && s.owner[p].pfn <= p < |s.pages|
  {
    WellFormedHead(s.owner, p);
  }

  /** With a page inside a free block marked as the start of one, the page array means nothing: no
      lists and no partition of the pages agree with it. */
  lemma InnerMarkUnreadable(s: State, t: State, lo: nat, hi: nat, p: nat, v: Page)
    requires Rep(s, lo, hi) && p in s.owner && !IsHead(s.owner, p)
    requires p < |s.pages| && t.pages == s.pages[p := v] && v.free && !v.legacy
    ensures !Rep(t, lo, hi)
  {
    var b := s.owner[p];
    HeadIsInside(s, lo, hi, p);
    if Rep(t, lo, hi) {
      HeadStays(s, t, lo, hi, b.pfn);
      BlockPagesFree(t.owner, b);
      MarkedIsHead(t, lo, hi, p);
    }
  }

  lemma MarkedIsHead(t: State, lo: nat, hi: nat, p: nat)
    requires Rep(t, lo, hi) && p < |t.pages| && t.pages[p].free && !t.pages[p].legacy
    ensures IsHead(t.owner, p) && t.owner[p].order == t.pages[p].order
  {
    assert FlagOk(t, p);
  }

  /** A free page marked as a free block of its own adds no page to any reading of the page array. */
  lemma MarkAddsNoPage(s: State, t: State, lo: nat, hi: nat, p: nat, v: Page)
    requires Rep(s, lo, hi) && Rep(t, lo, hi) && p in s.owner
    requires p < |s.pages| && t.pages == s.pages[p := v] && v.order == 0
    ensures t.owner.Keys <= s.owner.Keys && |t.owner.Keys| <= |s.owner.Keys|
  {
    forall x | x in t.owner ensures x in s.owner {
      HeadIsInside(t, lo, hi, x);
      var h := t.owner[x].pfn;
      assert FlagOk(t, h);
      if h == p {
        assert Pow2(0) == 1;
      } else {
        HeadStays(t, s, lo, hi, h);
        BlockPagesFree(s.owner, s.owner[h]);
      }
    }
    SubsetCount(t.owner.Keys, s.owner.Keys);
  }
}
