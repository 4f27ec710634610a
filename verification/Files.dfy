/** Descriptor tables: per-process slots over shared open-file descriptions. Every method is one
    section under the descriptor lock, so any interleaving of threads is a sequence of these calls;
    what a thread worked out before it took the lock comes in as an argument. */
module Files {
  import opened Common

  const OFILE_MAX: nat := 64
  const FD_INLINE: nat := 16
  const FD_MAX: nat := 256
  const FREE: int := -1
  const MAX_PIPES: nat := 8

  datatype End = NoEnd | ReadEnd(pipe: nat) | WriteEnd(pipe: nat)

  /** An open file description: in use, with `nref` slots naming it. */
  datatype Ofile = Ofile(used: bool, nref: nat, end: End)

  /** The descriptor table of one process. */
  datatype Table = Table(fd: seq<int>, nextFd: nat, nopen: nat)

  // ---- Counting slots -------------------------------------------------------------------

  function One(b: bool): nat { if b then 1 else 0 }

  function CountFd(fd: seq<int>, s: set<int>): nat {
    if fd == [] then 0 else One(fd[|fd| - 1] in s) + CountFd(fd[..|fd| - 1], s)
  }

  function Count(tabs: seq<Table>, s: set<int>): nat {
    if tabs == [] then 0 else CountFd(tabs[|tabs| - 1].fd, s) + Count(tabs[..|tabs| - 1], s)
  }

  lemma {:induction false} CountFdUpdate(fd: seq<int>, n: nat, v: int, s: set<int>)
    requires n < |fd|
    ensures CountFd(fd[n := v], s) + One(fd[n] in s) == CountFd(fd, s) + One(v in s)
  {
    var m := |fd| - 1;
    if n == m {
      assert fd[n := v][..m] == fd[..m];
    } else {
      assert fd[n := v][..m] == fd[..m][n := v];
      CountFdUpdate(fd[..m], n, v, s);
    }
  }

  lemma {:induction false} CountUpdate(tabs: seq<Table>, p: nat, t: Table, s: set<int>)
    requires p < |tabs|
    ensures Count(tabs[p := t], s) + CountFd(tabs[p].fd, s) == Count(tabs, s) + CountFd(t.fd, s)
  {
    var m := |tabs| - 1;
    if p == m {
      assert tabs[p := t][..m] == tabs[..m];
    } else {
      assert tabs[p := t][..m] == tabs[..m][p := t];
      CountUpdate(tabs[..m], p, t, s);
    }
  }

  lemma {:induction false} CountFdGrow(fd: seq<int>, more: seq<int>, s: set<int>)
    requires forall i :: 0 <= i < |more| ==> more[i] !in s
    ensures CountFd(fd + more, s) == CountFd(fd, s)
  {
    if more == [] {
      assert fd + more == fd;
    } else {
      var m := |more| - 1;
      assert (fd + more)[..|fd + more| - 1] == fd + more[..m];
      CountFdGrow(fd, more[..m], s);
    }
  }

  lemma {:induction false} SlotIsCounted(fd: seq<int>, n: nat, s: set<int>)
    requires n < |fd| && fd[n] in s
    ensures CountFd(fd, s) > 0
  {
    if n < |fd| - 1 {
      SlotIsCounted(fd[..|fd| - 1], n, s);
    }
  }

  lemma {:induction false} TableIsCounted(tabs: seq<Table>, p: nat, s: set<int>)
    requires p < |tabs|
    ensures CountFd(tabs[p].fd, s) <= Count(tabs, s)
  {
    if p < |tabs| - 1 {
      TableIsCounted(tabs[..|tabs| - 1], p, s);
    }
  }

  /** One slot changed in one process changes a count by what leaves and what comes. */
  lemma SlotUpdate(tabs: seq<Table>, p: nat, t: Table, n: nat, v: int, s: set<int>)
    requires p < |tabs| && n < |tabs[p].fd| && t.fd == tabs[p].fd[n := v]
    ensures Count(tabs[p := t], s) + One(tabs[p].fd[n] in s) == Count(tabs, s) + One(v in s)
  {
    CountFdUpdate(tabs[p].fd, n, v, s);
    CountUpdate(tabs, p, t, s);
  }

  // ---- The accounting -------------------------------------------------------------------

  /** The descriptions that name a pipe end. */
  function Naming(ofs: seq<Ofile>, e: End): set<int> {
    set oi: int | 0 <= oi < |ofs| && ofs[oi].end == e
  }

  predicate InUse(v: int) { v >= 0 }

  /** Everything a slot can name. */
  function Any(): set<int> {
    set v: int | 0 <= v < OFILE_MAX && InUse(v)
  }

  /** The sizes a table passes through: the inline one, doubled until the limit. */
  predicate IsSize(cap: nat) { cap == 16 || cap == 32 || cap == 64 || cap == 128 || cap == 256 }

  predicate TableOk(t: Table, ofs: seq<Ofile>) {
    && IsSize(|t.fd|) && t.nextFd <= |t.fd|
    && (forall i :: 0 <= i < |t.fd| ==> t.fd[i] == FREE || (0 <= t.fd[i] < |ofs| && ofs[t.fd[i]].used))
    && t.nopen == CountFd(t.fd, Any())
  }

  /** Descriptions are counted exactly, by the slots that name them. */
  ghost predicate Counted(ofs: seq<Ofile>, tabs: seq<Table>) {
    && |ofs| == OFILE_MAX
    && (forall p :: 0 <= p < |tabs| ==> TableOk(tabs[p], ofs))
    && (forall oi :: 0 <= oi < |ofs| ==> ofs[oi].nref == Count(tabs, {oi}))
  }

  /** Pipe ends are counted exactly, by the slots that name any description of that end. The map holds
      both ends of the pipes in use. */
  ghost predicate PipesCounted(ofs: seq<Ofile>, tabs: seq<Table>, pipes: map<End, nat>) {
    && NoEnd !in pipes
    && (forall e :: e in pipes ==> Twin(e) in pipes && pipes[e] == Count(tabs, Naming(ofs, e)))
    && (forall oi :: 0 <= oi < |ofs| && ofs[oi].end != NoEnd ==> ofs[oi].end in pipes && ofs[oi].nref > 0)
  }

  ghost predicate Accounted(ofs: seq<Ofile>, tabs: seq<Table>, pipes: map<End, nat>) {
    Counted(ofs, tabs) && PipesCounted(ofs, tabs, pipes)
  }

  /** The other end of the same pipe. */
  function Twin(e: End): End {
    match e
    case NoEnd => NoEnd
    case ReadEnd(k) => WriteEnd(k)
    case WriteEnd(k) => ReadEnd(k)
  }

  lemma TableIsOk(ofs: seq<Ofile>, tabs: seq<Table>, p: nat)
    requires Counted(ofs, tabs) && p < |tabs|
    ensures |ofs| == OFILE_MAX && TableOk(tabs[p], ofs)
  {
  }

  /** The hint of the table: no slot below it is free. */
  predicate HintIsTight(t: Table) {
    forall i :: 0 <= i < t.nextFd && i < |t.fd| ==> t.fd[i] >= 0
  }

  // ---- The free-slot search -------------------------------------------------------------

  datatype Found = Full | Slot(n: nat)

  /** No slot from `lo` up to `hi` is free. */
  predicate Taken(t: Table, lo: nat, hi: nat) {
    forall i :: lo <= i < hi && i < |t.fd| ==> t.fd[i] >= 0
  }

  /** `fd_find_free_locked`: the first free slot at or above the hint, then the first below it. It is
      the lowest free slot exactly when none between `min` and the hint is free or none above it is. */
  method FindFree(t: Table, min: nat) returns (r: Found)
    ensures r.Full? <==> Taken(t, min, |t.fd|)
    ensures r.Slot? ==> min <= r.n < |t.fd| && t.fd[r.n] < 0
    ensures r.Slot? ==> (r.n >= t.nextFd <==> !Taken(t, Max(min, t.nextFd), |t.fd|))
    ensures r.Slot? && r.n >= t.nextFd ==> Taken(t, Max(min, t.nextFd), r.n)
    ensures r.Slot? ==> (Taken(t, min, r.n) <==>
                           Taken(t, min, t.nextFd) || Taken(t, Max(min, t.nextFd), |t.fd|))
  {
    var i := if min > t.nextFd then min else t.nextFd;
    var first := i;
    while i < |t.fd|
      invariant first <= i && forall k :: first <= k < i && k < |t.fd| ==> t.fd[k] >= 0
    {
      if t.fd[i] < 0 {
        return Slot(i);
      }
      i := i + 1;
    }
    i := min;
    while i < t.nextFd && i < |t.fd|
      invariant min <= i && forall k :: min <= k < i && k < |t.fd| ==> t.fd[k] >= 0
      invariant forall k :: first <= k < |t.fd| ==> t.fd[k] >= 0
    {
      if t.fd[i] < 0 {
        return Slot(i);
      }
      i := i + 1;
    }
    r := Full;
  }

  // ---- The sections under the lock ------------------------------------------------------

  /** The table with description `v` in slot `n`. */
  function Installed(t: Table, n: nat, oi: nat): Table
    requires n < |t.fd|
  {
    Table(t.fd[n := oi], if n >= t.nextFd then n + 1 else t.nextFd, t.nopen + 1)
  }

  function Released(t: Table, n: nat): Table
    requires n < |t.fd|
  {
    Table(t.fd[n := FREE], if n < t.nextFd then n else t.nextFd, if t.nopen > 0 then t.nopen - 1 else 0)
  }

  function Grown(t: Table, cap: nat): Table
    requires |t.fd| <= cap
  {
    t.(fd := t.fd + seq(cap - |t.fd|, _ => FREE))
  }

  /** A pipe end gains a reference. */
  function Ref(pipes: map<End, nat>, e: End): map<End, nat> {
    if e == NoEnd || e !in pipes then pipes else pipes[e := pipes[e] + 1]
  }

  /** A pipe end loses a reference; with the last one of both ends the pipe is free again. */
  function Unref(pipes: map<End, nat>, e: End): map<End, nat> {
    if e == NoEnd || e !in pipes then pipes
    else
      var left := pipes[e := if pipes[e] > 0 then pipes[e] - 1 else 0];
      if left[e] == 0 && Twin(e) in left && left[Twin(e)] == 0 then left - {e, Twin(e)} else left
  }

  // ---- What installing a slot keeps -----------------------------------------------------

  lemma InstallKeepsCounted(ofs: seq<Ofile>, tabs: seq<Table>, p: nat, n: nat, oi: nat)
    requires Counted(ofs, tabs) && p < |tabs| && n < |tabs[p].fd| && tabs[p].fd[n] < 0
    requires oi < |ofs| && ofs[oi].used
    ensures Counted(ofs[oi := ofs[oi].(nref := ofs[oi].nref + 1)], tabs[p := Installed(tabs[p], n, oi)])
  {
    var t := Installed(tabs[p], n, oi);
    var ofs', tabs' := ofs[oi := ofs[oi].(nref := ofs[oi].nref + 1)], tabs[p := t];
    assert TableOk(tabs[p], ofs);
    CountFdUpdate(tabs[p].fd, n, oi, Any());
    forall q | 0 <= q < |tabs'| ensures TableOk(tabs'[q], ofs') {
      assert TableOk(tabs[q], ofs);
    }
    forall o | 0 <= o < |ofs'| ensures ofs'[o].nref == Count(tabs', {o}) {
      SlotUpdate(tabs, p, t, n, oi, {o});
    }
  }

  lemma InstallKeeps(ofs: seq<Ofile>, tabs: seq<Table>, pipes: map<End, nat>, p: nat, n: nat, oi: nat)
    requires Accounted(ofs, tabs, pipes) && p < |tabs| && n < |tabs[p].fd| && tabs[p].fd[n] < 0
    requires oi < |ofs| && ofs[oi].used
    ensures Accounted(ofs[oi := ofs[oi].(nref := ofs[oi].nref + 1)], tabs[p := Installed(tabs[p], n, oi)],
                      Ref(pipes, ofs[oi].end))
  {
    hide Counted, Installed;
    InstallKeepsCounted(ofs, tabs, p, n, oi);
    var t := Installed(tabs[p], n, oi);
    assert t.fd == tabs[p].fd[n := oi] by { InstalledSlots(tabs[p], n, oi); }
    var ofs', pipes' := ofs[oi := ofs[oi].(nref := ofs[oi].nref + 1)], Ref(pipes, ofs[oi].end);
    forall e | e in pipes' ensures Twin(e) in pipes' && pipes'[e] == Count(tabs[p := t], Naming(ofs', e)) {
      assert Naming(ofs', e) == Naming(ofs, e);
      SlotUpdate(tabs, p, t, n, oi, Naming(ofs, e));
    }
  }

  lemma InstalledSlots(t: Table, n: nat, oi: nat)
    requires n < |t.fd|
    ensures Installed(t, n, oi).fd == t.fd[n := oi]
  {
  }

  // ---- What releasing a slot keeps ------------------------------------------------------

  /** The description after one reference is gone; the last one frees it. */
  function Dropped(o: Ofile): Ofile {
    if o.nref > 1 then o.(nref := o.nref - 1) else Ofile(false, 0, NoEnd)
  }

  lemma ReleaseKeepsCounted(ofs: seq<Ofile>, tabs: seq<Table>, p: nat, n: nat)
    requires Counted(ofs, tabs) && p < |tabs| && n < |tabs[p].fd| && tabs[p].fd[n] >= 0
    ensures var oi := tabs[p].fd[n];
            && 0 <= oi < |ofs| && ofs[oi].nref > 0
            && Counted(ofs[oi := Dropped(ofs[oi])], tabs[p := Released(tabs[p], n)])
  {
    var oi := tabs[p].fd[n];
    assert TableOk(tabs[p], ofs);
    var t := Released(tabs[p], n);
    var ofs', tabs' := ofs[oi := Dropped(ofs[oi])], tabs[p := t];
    SlotIsCounted(tabs[p].fd, n, {oi});
    TableIsCounted(tabs, p, {oi});
    forall o | 0 <= o < |ofs'| ensures ofs'[o].nref == Count(tabs', {o}) {
      SlotUpdate(tabs, p, t, n, FREE, {o});
    }
    forall q | 0 <= q < |tabs'| ensures TableOk(tabs'[q], ofs') {
      ReleasedTable(ofs, tabs, p, n, q, ofs', tabs');
    }
  }

  lemma ReleasedTable(ofs: seq<Ofile>, tabs: seq<Table>, p: nat, n: nat, q: nat, ofs': seq<Ofile>, tabs': seq<Table>)
    requires |ofs| == OFILE_MAX && p < |tabs| && n < |tabs[p].fd| && q < |tabs|
    requires TableOk(tabs[p], ofs) && TableOk(tabs[q], ofs) && tabs[p].fd[n] >= 0
    requires ofs' == ofs[tabs[p].fd[n] := Dropped(ofs[tabs[p].fd[n]])] && tabs' == tabs[p := Released(tabs[p], n)]
    requires ofs'[tabs[p].fd[n]].nref == Count(tabs', {tabs[p].fd[n]})
    ensures TableOk(tabs'[q], ofs')
  {
    var oi := tabs[p].fd[n];
    SlotIsCounted(tabs[p].fd, n, Any());
    CountFdUpdate(tabs[p].fd, n, FREE, Any());
    forall i | 0 <= i < |tabs'[q].fd| && tabs'[q].fd[i] == oi ensures ofs'[oi].used {
      SlotIsCounted(tabs'[q].fd, i, {oi});
      TableIsCounted(tabs', q, {oi});
    }
  }

  lemma ReleaseKeeps(ofs: seq<Ofile>, tabs: seq<Table>, pipes: map<End, nat>, p: nat, n: nat)
    requires Accounted(ofs, tabs, pipes) && p < |tabs| && n < |tabs[p].fd| && tabs[p].fd[n] >= 0
    ensures var oi := tabs[p].fd[n];
            && 0 <= oi < |ofs| && ofs[oi].nref > 0
            && Accounted(ofs[oi := Dropped(ofs[oi])], tabs[p := Released(tabs[p], n)], Unref(pipes, ofs[oi].end))
  {
    ReleaseKeepsCounted(ofs, tabs, p, n);
    var oi := tabs[p].fd[n];
    var ofs', tabs' := ofs[oi := Dropped(ofs[oi])], tabs[p := Released(tabs[p], n)];
    forall e | e in pipes ensures Lowered(pipes, ofs[oi].end, e) == Count(tabs', Naming(ofs', e)) {
      ReleasedPipe(ofs, tabs, pipes, p, n, e, ofs');
    }
    LastUnref(ofs, ofs', tabs', pipes, oi);
  }

  /** The count of end `e` once `gone` has lost a reference. */
  function Lowered(pipes: map<End, nat>, gone: End, e: End): nat
    requires e in pipes
  {
    if e == gone && pipes[e] > 0 then pipes[e] - 1 else pipes[e]
  }

  lemma ReleasedPipe(ofs: seq<Ofile>, tabs: seq<Table>, pipes: map<End, nat>, p: nat, n: nat, e: End, ofs': seq<Ofile>)
    requires Accounted(ofs, tabs, pipes) && p < |tabs| && n < |tabs[p].fd| && tabs[p].fd[n] >= 0
    requires e in pipes && 0 <= tabs[p].fd[n] < |ofs|
    requires ofs' == ofs[tabs[p].fd[n] := Dropped(ofs[tabs[p].fd[n]])]
    requires ofs'[tabs[p].fd[n]].nref == Count(tabs[p := Released(tabs[p], n)], {tabs[p].fd[n]})
    ensures Lowered(pipes, ofs[tabs[p].fd[n]].end, e) == Count(tabs[p := Released(tabs[p], n)], Naming(ofs', e))
  {
    hide Counted;
    var oi := tabs[p].fd[n];
    var tabs' := tabs[p := Released(tabs[p], n)];
    SlotUpdate(tabs, p, Released(tabs[p], n), n, FREE, Naming(ofs, e));
    if ofs[oi].end == e {
      SlotIsCounted(tabs[p].fd, n, Naming(ofs, e));
      TableIsCounted(tabs, p, Naming(ofs, e));
    }
    if ofs'[oi].end == ofs[oi].end {
      assert Naming(ofs', e) == Naming(ofs, e);
    } else {
      assert Naming(ofs', e) == Naming(ofs, e) - {oi};
      CountWithout(tabs', Naming(ofs, e), oi);
    }
  }

  /** The pipe goes with its last reference, and no description is left that names it. */
  lemma LastUnref(ofs: seq<Ofile>, ofs': seq<Ofile>, tabs: seq<Table>, pipes: map<End, nat>, oi: nat)
    requires Counted(ofs', tabs) && oi < |ofs| == |ofs'| && ofs' == ofs[oi := Dropped(ofs[oi])]
    requires NoEnd !in pipes && forall e :: e in pipes ==> Twin(e) in pipes
    requires forall o :: 0 <= o < |ofs| && ofs[o].end != NoEnd ==> ofs[o].end in pipes && ofs[o].nref > 0
    requires forall e :: e in pipes ==> Lowered(pipes, ofs[oi].end, e) == Count(tabs, Naming(ofs', e))
    ensures PipesCounted(ofs', tabs, Unref(pipes, ofs[oi].end))
  {
    var pipes' := Unref(pipes, ofs[oi].end);
    forall e | e in pipes' ensures Twin(e) in pipes' && pipes'[e] == Count(tabs, Naming(ofs', e)) {
    }
    forall o | 0 <= o < |ofs'| && ofs'[o].end != NoEnd ensures ofs'[o].end in pipes' && ofs'[o].nref > 0 {
      CountOfPart(tabs, {o}, Naming(ofs', ofs'[o].end));
    }
  }

  /** A description no slot names does not show in any count. */
  lemma {:induction false} CountWithout(tabs: seq<Table>, s: set<int>, oi: int)
    requires Count(tabs, {oi}) == 0
    ensures Count(tabs, s - {oi}) == Count(tabs, s)
  {
    if tabs != [] {
      CountFdWithout(tabs[|tabs| - 1].fd, s, oi);
      CountWithout(tabs[..|tabs| - 1], s, oi);
    }
  }

  lemma {:induction false} CountFdWithout(fd: seq<int>, s: set<int>, oi: int)
    requires CountFd(fd, {oi}) == 0
    ensures CountFd(fd, s - {oi}) == CountFd(fd, s)
  {
    if fd != [] {
      CountFdWithout(fd[..|fd| - 1], s, oi);
    }
  }

  /** The slots that name members of `part` are among those that name members of `s`, and the others
      are counted apart. */
  lemma {:induction false} CountOfPart(tabs: seq<Table>, part: set<int>, s: set<int>)
    requires part <= s
    ensures Count(tabs, s) == Count(tabs, part) + Count(tabs, s - part)
  {
    if tabs != [] {
      CountFdOfPart(tabs[|tabs| - 1].fd, part, s);
      CountOfPart(tabs[..|tabs| - 1], part, s);
    }
  }

  lemma {:induction false} CountFdOfPart(fd: seq<int>, part: set<int>, s: set<int>)
    requires part <= s
    ensures CountFd(fd, s) == CountFd(fd, part) + CountFd(fd, s - part)
  {
    if fd != [] {
      CountFdOfPart(fd[..|fd| - 1], part, s);
    }
  }

  lemma CountNone(tabs: seq<Table>)
    ensures Count(tabs, {}) == 0
  {
    CountOfPart(tabs, {}, {});
    var none: set<int> := {};
    assert none - none == none;
  }

  // ---- What the other sections keep -----------------------------------------------------

  lemma GrowKeeps(ofs: seq<Ofile>, tabs: seq<Table>, p: nat, cap: nat)
    requires Counted(ofs, tabs) && p < |tabs| && |tabs[p].fd| <= cap && IsSize(cap)
    ensures Counted(ofs, tabs[p := Grown(tabs[p], cap)])
    ensures forall pipes :: PipesCounted(ofs, tabs, pipes) ==> PipesCounted(ofs, tabs[p := Grown(tabs[p], cap)], pipes)
  {
    var t := Grown(tabs[p], cap);
    var more := seq(cap - |tabs[p].fd|, _ => FREE);
    assert TableOk(tabs[p], ofs);
    CountFdGrow(tabs[p].fd, more, Any());
    forall s: set<int> | FREE !in s ensures Count(tabs[p := t], s) == Count(tabs, s) {
      CountFdGrow(tabs[p].fd, more, s);
      CountUpdate(tabs, p, t, s);
    }
    forall e ensures Count(tabs[p := t], Naming(ofs, e)) == Count(tabs, Naming(ofs, e)) {
      assert FREE !in Naming(ofs, e);
    }
  }

  /** A description that is not in use is named by no slot. */
  lemma UnusedIsUnnamed(ofs: seq<Ofile>, tabs: seq<Table>, oi: nat)
    requires Counted(ofs, tabs) && oi < |ofs| && !ofs[oi].used
    ensures Count(tabs, {oi}) == 0
    ensures forall p, n :: 0 <= p < |tabs| && 0 <= n < |tabs[p].fd| ==> tabs[p].fd[n] != oi
  {
    forall p, n | 0 <= p < |tabs| && 0 <= n < |tabs[p].fd| ensures tabs[p].fd[n] != oi {
      assert TableOk(tabs[p], ofs);
    }
    if Count(tabs, {oi}) > 0 {
      var p, n := SomeSlot(tabs, {oi});
      assert false;
    }
  }

  lemma NamedSomewhere(ofs: seq<Ofile>, tabs: seq<Table>, oi: nat)
    requires Counted(ofs, tabs) && oi < |ofs| && ofs[oi].nref > 0
    ensures exists p, n :: 0 <= p < |tabs| && 0 <= n < |tabs[p].fd| && tabs[p].fd[n] == oi
  {
    var p, n := SomeSlot(tabs, {oi});
    assert tabs[p].fd[n] == oi;
  }

  /** A description that no slot names can be claimed, and given up again. */
  lemma ClaimKeeps(ofs: seq<Ofile>, tabs: seq<Table>, oi: nat, used: bool)
    requires Counted(ofs, tabs) && oi < |ofs| && (ofs[oi].used ==> ofs[oi].nref == 0)
    ensures ofs[oi].nref == 0 && Counted(ofs[oi := Ofile(used, 0, NoEnd)], tabs)
    ensures forall pipes :: PipesCounted(ofs, tabs, pipes) ==>
              PipesCounted(ofs[oi := Ofile(used, 0, NoEnd)], tabs, pipes)
  {
    if !ofs[oi].used {
      UnusedIsUnnamed(ofs, tabs, oi);
    }
    var ofs' := ofs[oi := Ofile(used, 0, NoEnd)];
    forall q | 0 <= q < |tabs| ensures TableOk(tabs[q], ofs') {
      assert TableOk(tabs[q], ofs);
      ZeroIsNotNamed(tabs, q, oi);
    }
    forall pipes | PipesCounted(ofs, tabs, pipes) ensures PipesCounted(ofs', tabs, pipes) {
      forall e | e in pipes ensures Naming(ofs', e) == Naming(ofs, e) {
      }
    }
  }

  lemma ZeroIsNotNamed(tabs: seq<Table>, q: nat, oi: int)
    requires q < |tabs| && Count(tabs, {oi}) == 0
    ensures forall i :: 0 <= i < |tabs[q].fd| ==> tabs[q].fd[i] != oi
  {
    forall i | 0 <= i < |tabs[q].fd| ensures tabs[q].fd[i] != oi {
      if tabs[q].fd[i] == oi {
        SlotIsCounted(tabs[q].fd, i, {oi});
        TableIsCounted(tabs, q, {oi});
      }
    }
  }

  lemma {:induction false} SomeSlot(tabs: seq<Table>, s: set<int>) returns (p: nat, n: nat)
    requires Count(tabs, s) > 0
    ensures p < |tabs| && n < |tabs[p].fd| && tabs[p].fd[n] in s
  {
    var m := |tabs| - 1;
    if CountFd(tabs[m].fd, s) > 0 {
      p := m;
      n := SomeSlotIn(tabs[m].fd, s);
    } else {
      p, n := SomeSlot(tabs[..m], s);
    }
  }

  lemma {:induction false} SomeSlotIn(fd: seq<int>, s: set<int>) returns (n: nat)
    requires CountFd(fd, s) > 0
    ensures n < |fd| && fd[n] in s
  {
    var m := |fd| - 1;
    if fd[m] in s {
      n := m;
    } else {
      n := SomeSlotIn(fd[..m], s);
    }
  }

  // ---- Pipes ----------------------------------------------------------------------------

  /** The pipe is in use and no reference to either end is counted. */
  predicate Reserved(pipes: map<End, nat>, k: nat) {
    ReadEnd(k) in pipes && WriteEnd(k) in pipes && pipes[ReadEnd(k)] == 0 && pipes[WriteEnd(k)] == 0
  }

  lemma ReservedIsUnnamed(ofs: seq<Ofile>, tabs: seq<Table>, pipes: map<End, nat>, k: nat)
    requires Accounted(ofs, tabs, pipes) && Reserved(pipes, k)
    ensures forall o :: 0 <= o < |ofs| ==> ofs[o].end != ReadEnd(k) && ofs[o].end != WriteEnd(k)
  {
    forall o | 0 <= o < |ofs| ensures ofs[o].end != ReadEnd(k) && ofs[o].end != WriteEnd(k) {
      CountOfPart(tabs, {o}, Naming(ofs, ofs[o].end));
    }
  }

  /** `pipe_create_for` takes an unused pipe, and on failure gives it back. */
  lemma ReserveKeeps(ofs: seq<Ofile>, tabs: seq<Table>, pipes: map<End, nat>, k: nat)
    requires Accounted(ofs, tabs, pipes)
    ensures ReadEnd(k) !in pipes && WriteEnd(k) !in pipes ==>
              Accounted(ofs, tabs, pipes[ReadEnd(k) := 0][WriteEnd(k) := 0])
    ensures Reserved(pipes, k) ==> Accounted(ofs, tabs, pipes - {ReadEnd(k), WriteEnd(k)})
  {
    hide Counted;
    CountNone(tabs);
    if ReadEnd(k) !in pipes && WriteEnd(k) !in pipes {
      assert Naming(ofs, ReadEnd(k)) == {} && Naming(ofs, WriteEnd(k)) == {};
    }
    if Reserved(pipes, k) {
      ReservedIsUnnamed(ofs, tabs, pipes, k);
    }
  }

  /** Two descriptions, each named by one slot and by no other, and no pipe ends yet. */
  predicate LonePair(ofs: seq<Ofile>, roi: nat, woi: nat)
    requires roi < |ofs| && woi < |ofs|
  {
    roi != woi && ofs[roi].nref == 1 && ofs[woi].nref == 1 && ofs[roi].end == NoEnd && ofs[woi].end == NoEnd
  }

  function Attached(ofs: seq<Ofile>, roi: nat, woi: nat, k: nat): seq<Ofile>
    requires roi < |ofs| && woi < |ofs|
  {
    var read := ofs[roi := ofs[roi].(end := ReadEnd(k))];
    read[woi := read[woi].(end := WriteEnd(k))]
  }

  lemma AttachKeepsCounted(ofs: seq<Ofile>, tabs: seq<Table>, roi: nat, woi: nat, k: nat)
    requires Counted(ofs, tabs) && roi < |ofs| && woi < |ofs|
    ensures Counted(Attached(ofs, roi, woi, k), tabs)
  {
    forall q | 0 <= q < |tabs| ensures TableOk(tabs[q], Attached(ofs, roi, woi, k)) {
      assert TableOk(tabs[q], ofs);
    }
  }

  /** The two counts of a new pipe are set to 1 without a look at how many slots name its ends. They
      are exact, and all others stay exact, if and only if each end is named by one slot. */
  lemma AttachKeepsIff(ofs: seq<Ofile>, tabs: seq<Table>, pipes: map<End, nat>, roi: nat, woi: nat, k: nat)
    requires Accounted(ofs, tabs, pipes) && roi < |ofs| && woi < |ofs| && Reserved(pipes, k)
    ensures Accounted(Attached(ofs, roi, woi, k), tabs, pipes[ReadEnd(k) := 1][WriteEnd(k) := 1])
            <==> LonePair(ofs, roi, woi)
  {
    AttachKeepsCounted(ofs, tabs, roi, woi, k);
    ReservedIsUnnamed(ofs, tabs, pipes, k);
    if LonePair(ofs, roi, woi) {
      LonePairKeeps(ofs, tabs, pipes, roi, woi, k);
    } else if Accounted(Attached(ofs, roi, woi, k), tabs, pipes[ReadEnd(k) := 1][WriteEnd(k) := 1]) {
      OnlyLonePairKeeps(ofs, tabs, pipes, roi, woi, k);
      assert false;
    }
  }

  lemma LonePairKeeps(ofs: seq<Ofile>, tabs: seq<Table>, pipes: map<End, nat>, roi: nat, woi: nat, k: nat)
    requires Accounted(ofs, tabs, pipes) && roi < |ofs| && woi < |ofs| && Reserved(pipes, k)
    requires LonePair(ofs, roi, woi)
    ensures PipesCounted(Attached(ofs, roi, woi, k), tabs, pipes[ReadEnd(k) := 1][WriteEnd(k) := 1])
  {
    ReservedIsUnnamed(ofs, tabs, pipes, k);
    var ofs', pipes' := Attached(ofs, roi, woi, k), pipes[ReadEnd(k) := 1][WriteEnd(k) := 1];
    assert Naming(ofs', ReadEnd(k)) == {roi} && Naming(ofs', WriteEnd(k)) == {woi};
    forall e | e in pipes' ensures Twin(e) in pipes' && pipes'[e] == Count(tabs, Naming(ofs', e)) {
      if e != ReadEnd(k) && e != WriteEnd(k) {
        assert Naming(ofs', e) == Naming(ofs, e);
      }
    }
  }

  lemma OnlyLonePairKeeps(ofs: seq<Ofile>, tabs: seq<Table>, pipes: map<End, nat>, roi: nat, woi: nat, k: nat)
    requires Accounted(ofs, tabs, pipes) && roi < |ofs| && woi < |ofs| && Reserved(pipes, k)
    requires Accounted(Attached(ofs, roi, woi, k), tabs, pipes[ReadEnd(k) := 1][WriteEnd(k) := 1])
    ensures LonePair(ofs, roi, woi)
  {
    hide TableOk;
    ReservedIsUnnamed(ofs, tabs, pipes, k);
    var ofs' := Attached(ofs, roi, woi, k);
    CountNone(tabs);
    assert Naming(ofs', WriteEnd(k)) == {woi};
    assert Naming(ofs', ReadEnd(k)) == if roi == woi then {} else {roi};
    var pipes' := pipes[ReadEnd(k) := 1][WriteEnd(k) := 1];
    assert pipes'[ReadEnd(k)] == 1 && pipes'[WriteEnd(k)] == 1;
    assert ofs[roi].nref == Count(tabs, {roi}) && ofs[woi].nref == Count(tabs, {woi});
    NothingMoved(ofs, ofs', tabs, pipes, pipes', roi);
    NothingMoved(ofs, ofs', tabs, pipes, pipes', woi);
  }

  /** An end that keeps its count keeps each of its descriptions. */
  lemma NothingMoved(ofs: seq<Ofile>, ofs': seq<Ofile>, tabs: seq<Table>, pipes: map<End, nat>,
                     pipes': map<End, nat>, oi: nat)
    requires Accounted(ofs, tabs, pipes) && Accounted(ofs', tabs, pipes') && oi < |ofs|
    requires ofs[oi].end in pipes ==> ofs[oi].end in pipes' && pipes[ofs[oi].end] == pipes'[ofs[oi].end]
    requires ofs'[oi].end != ofs[oi].end && Naming(ofs', ofs[oi].end) <= Naming(ofs, ofs[oi].end)
    ensures ofs[oi].end == NoEnd
  {
    hide TableOk;
    var e := ofs[oi].end;
    if e != NoEnd {
      var rest := Naming(ofs, e) - {oi};
      CountOfPart(tabs, {oi}, Naming(ofs, e));
      CountOfPart(tabs, Naming(ofs', e), rest);
    }
  }

  /** Every table as `files_init` leaves it, and nothing in use. */
  lemma FreshIsAccounted(ofs: seq<Ofile>, tabs: seq<Table>)
    requires |ofs| == OFILE_MAX && forall oi :: 0 <= oi < |ofs| ==> ofs[oi] == Ofile(false, 0, NoEnd)
    requires forall p :: 0 <= p < |tabs| ==> tabs[p] == Table(seq(FD_INLINE, _ => FREE), 0, 0)
    ensures Accounted(ofs, tabs, map[])
  {
    forall s: set<int> | FREE !in s ensures Count(tabs, s) == 0 && CountFd(seq(FD_INLINE, _ => FREE), s) == 0 {
      FreshCount(tabs, s);
      CountFdGrow([], seq(FD_INLINE, _ => FREE), s);
      assert [] + seq(FD_INLINE, _ => FREE) == seq(FD_INLINE, _ => FREE);
    }
  }

  lemma {:induction false} FreshCount(tabs: seq<Table>, s: set<int>)
    requires FREE !in s
    requires forall p :: 0 <= p < |tabs| ==> forall i :: 0 <= i < |tabs[p].fd| ==> tabs[p].fd[i] == FREE
    ensures Count(tabs, s) == 0
  {
    if tabs != [] {
      var fd := tabs[|tabs| - 1].fd;
      CountFdGrow([], fd, s);
      assert [] + fd == fd;
      FreshCount(tabs[..|tabs| - 1], s);
    }
  }

  // ---- Every interleaving ---------------------------------------------------------------

  datatype Sys = Sys(ofs: seq<Ofile>, tabs: seq<Table>, pipes: map<End, nat>)

  /** One section under the lock, by whichever thread. `Attach` makes the descriptions that slots `r`
      and `w` name at that moment the ends of a pipe reserved before. `Grow` commits a table of `cap`
      slots that was sized and filled before the lock was taken, so `cap` may be out of date. */
  datatype Section =
    | Claim(oi: nat)
    | Unclaim(oi: nat)
    | Reserve(k: nat)
    | Unreserve(k: nat)
    | Attach(p: nat, r: nat, w: nat, k: nat)
    | Install(p: nat, n: nat, oi: nat)
    | Release(p: nat, n: nat)
    | Grow(p: nat, cap: nat)

  /** Slot `n` names a description in use. */
  predicate Names(s: Sys, p: nat, n: nat) {
    p < |s.tabs| && n < |s.tabs[p].fd| && 0 <= s.tabs[p].fd[n] < |s.ofs| && s.ofs[s.tabs[p].fd[n]].used
  }

  predicate Enabled(s: Sys, x: Section) {
    match x
    case Claim(oi) => oi < |s.ofs| && !s.ofs[oi].used
    case Unclaim(oi) => oi < |s.ofs| && s.ofs[oi].used && s.ofs[oi].nref == 0
    case Reserve(k) => k < MAX_PIPES && ReadEnd(k) !in s.pipes && WriteEnd(k) !in s.pipes
    case Unreserve(k) => Reserved(s.pipes, k)
    case Attach(p, r, w, k) => Names(s, p, r) && Names(s, p, w) && Reserved(s.pipes, k)
    case Install(p, n, oi) =>
      p < |s.tabs| && n < |s.tabs[p].fd| && s.tabs[p].fd[n] < 0 && oi < |s.ofs| && s.ofs[oi].used
    case Release(p, n) => Names(s, p, n)
    case Grow(p, cap) => p < |s.tabs| && IsSize(cap)
  }

  function Next(s: Sys, x: Section): Sys
    requires Enabled(s, x)
  {
    match x
    case Claim(oi) => s.(ofs := s.ofs[oi := Ofile(true, 0, NoEnd)])
    case Unclaim(oi) => s.(ofs := s.ofs[oi := Ofile(false, 0, NoEnd)])
    case Reserve(k) => s.(pipes := s.pipes[ReadEnd(k) := 0][WriteEnd(k) := 0])
    case Unreserve(k) => s.(pipes := s.pipes - {ReadEnd(k), WriteEnd(k)})
    case Attach(p, r, w, k) =>
      s.(ofs := Attached(s.ofs, s.tabs[p].fd[r], s.tabs[p].fd[w], k),
         pipes := s.pipes[ReadEnd(k) := 1][WriteEnd(k) := 1])
    case Install(p, n, oi) =>
      Sys(s.ofs[oi := s.ofs[oi].(nref := s.ofs[oi].nref + 1)], s.tabs[p := Installed(s.tabs[p], n, oi)],
          Ref(s.pipes, s.ofs[oi].end))
    case Release(p, n) =>
      var oi := s.tabs[p].fd[n];
      Sys(s.ofs[oi := Dropped(s.ofs[oi])], s.tabs[p := Released(s.tabs[p], n)], Unref(s.pipes, s.ofs[oi].end))
    case Grow(p, cap) => if |s.tabs[p].fd| >= cap then s else s.(tabs := s.tabs[p := Grown(s.tabs[p], cap)])
  }

  /** No section ever puts the count of a description out. */
  lemma NextKeepsCounted(s: Sys, x: Section)
    requires Counted(s.ofs, s.tabs) && Enabled(s, x)
    ensures Counted(Next(s, x).ofs, Next(s, x).tabs)
  {
    hide Counted;
    match x
    case Claim(oi) => ClaimKeeps(s.ofs, s.tabs, oi, true);
    case Unclaim(oi) => ClaimKeeps(s.ofs, s.tabs, oi, false);
    case Reserve(_) =>
    case Unreserve(_) =>
    case Attach(p, r, w, k) => AttachKeepsCounted(s.ofs, s.tabs, s.tabs[p].fd[r], s.tabs[p].fd[w], k);
    case Install(p, n, oi) => InstallKeepsCounted(s.ofs, s.tabs, p, n, oi);
    case Release(p, n) => ReleaseKeepsCounted(s.ofs, s.tabs, p, n);
    case Grow(p, cap) => if |s.tabs[p].fd| < cap { GrowKeeps(s.ofs, s.tabs, p, cap); }
  }

  /** When the section makes a pipe, each of its ends is a description with one slot to it. */
  predicate AttachesLonePair(s: Sys, x: Section)
    requires Enabled(s, x)
  {
    x.Attach? ==> LonePair(s.ofs, s.tabs[x.p].fd[x.r], s.tabs[x.p].fd[x.w])
  }

  /** A section puts some count out if and only if it makes a pipe of anything else. */
  lemma NextKeepsIff(s: Sys, x: Section)
    requires Accounted(s.ofs, s.tabs, s.pipes) && Enabled(s, x)
    ensures Accounted(Next(s, x).ofs, Next(s, x).tabs, Next(s, x).pipes) <==> AttachesLonePair(s, x)
  {
    hide Counted, PipesCounted;
    match x
    case Claim(oi) => ClaimKeeps(s.ofs, s.tabs, oi, true);
    case Unclaim(oi) => ClaimKeeps(s.ofs, s.tabs, oi, false);
    case Reserve(k) => ReserveKeeps(s.ofs, s.tabs, s.pipes, k);
    case Unreserve(k) => ReserveKeeps(s.ofs, s.tabs, s.pipes, k);
    case Attach(p, r, w, k) => AttachKeepsIff(s.ofs, s.tabs, s.pipes, s.tabs[p].fd[r], s.tabs[p].fd[w], k);
    case Install(p, n, oi) => InstallKeeps(s.ofs, s.tabs, s.pipes, p, n, oi);
    case Release(p, n) => ReleaseKeeps(s.ofs, s.tabs, s.pipes, p, n);
    case Grow(p, cap) => if |s.tabs[p].fd| < cap { GrowKeeps(s.ofs, s.tabs, p, cap); }
  }

  ghost predicate Run(s: seq<Sys>, xs: seq<Section>) {
    |s| == |xs| + 1 && forall i :: 0 <= i < |xs| ==> Enabled(s[i], xs[i]) && s[i + 1] == Next(s[i], xs[i])
  }

  lemma RunExtends(s: seq<Sys>, xs: seq<Section>, x: Section)
    requires Run(s, xs) && Enabled(s[|s| - 1], x)
    ensures Run(s + [Next(s[|s| - 1], x)], xs + [x])
  {
    var s', xs' := s + [Next(s[|s| - 1], x)], xs + [x];
    forall i | 0 <= i < |xs'| ensures Enabled(s'[i], xs'[i]) && s'[i + 1] == Next(s'[i], xs'[i]) {
    }
  }

  /** In every interleaving every description is counted exactly at every moment. */
  lemma {:induction false} RunKeepsCounted(s: seq<Sys>, xs: seq<Section>, k: nat)
    requires Run(s, xs) && k < |s| && Counted(s[0].ofs, s[0].tabs)
    ensures Counted(s[k].ofs, s[k].tabs)
  {
    hide Counted;
    if k > 0 {
      RunKeepsCounted(s, xs, k - 1);
      NextKeepsCounted(s[k - 1], xs[k - 1]);
    }
  }

  /** So is every pipe end, as long as every pipe is made of two descriptions with one slot each. */
  lemma {:induction false} RunKeepsAccounted(s: seq<Sys>, xs: seq<Section>, k: nat)
    requires Run(s, xs) && k < |s| && Accounted(s[0].ofs, s[0].tabs, s[0].pipes)
    requires forall i :: 0 <= i < k ==> AttachesLonePair(s[i], xs[i])
    ensures Accounted(s[k].ofs, s[k].tabs, s[k].pipes)
  {
    hide Accounted;
    if k > 0 {
      RunKeepsAccounted(s, xs, k - 1);
      NextKeepsIff(s[k - 1], xs[k - 1]);
    }
  }

  /** A description just claimed stays the claimant's own until a slot names it: no section that copies
      a slot can reach it. That is why giving it up needs no test. */
  lemma {:induction false} ClaimStaysPrivate(s: seq<Sys>, xs: seq<Section>, oi: nat, k: nat)
    requires Run(s, xs) && k < |s| && Counted(s[0].ofs, s[0].tabs)
    requires oi < |s[0].ofs| && s[0].ofs[oi] == Ofile(true, 0, NoEnd)
    requires forall i :: 0 <= i < k ==> xs[i] != Unclaim(oi)
    requires forall i :: 0 <= i < k && xs[i].Install? && xs[i].oi == oi ==> Count(s[i].tabs, {oi}) > 0
    ensures oi < |s[k].ofs| && s[k].ofs[oi] == Ofile(true, 0, NoEnd) && Enabled(s[k], Unclaim(oi))
  {
    if k > 0 {
      ClaimStaysPrivate(s, xs, oi, k - 1);
      RunKeepsCounted(s, xs, k - 1);
      PrivateStep(s[k - 1], xs[k - 1], oi);
    }
  }

  lemma PrivateStep(s: Sys, x: Section, oi: nat)
    requires Counted(s.ofs, s.tabs) && Enabled(s, x) && x != Unclaim(oi)
    requires oi < |s.ofs| && s.ofs[oi] == Ofile(true, 0, NoEnd)
    requires x.Install? && x.oi == oi ==> Count(s.tabs, {oi}) > 0
    ensures oi < |Next(s, x).ofs| && Next(s, x).ofs[oi] == Ofile(true, 0, NoEnd)
  {
    forall q | 0 <= q < |s.tabs| ensures forall i :: 0 <= i < |s.tabs[q].fd| ==> s.tabs[q].fd[i] != oi {
      ZeroIsNotNamed(s.tabs, q, oi);
    }
  }

  /** Section `i` claimed the description, and up to section `k` it has been neither given up nor installed. */
  ghost predicate ClaimPending(xs: seq<Section>, k: nat, oi: nat)
    requires k <= |xs|
  {
    exists i :: 0 <= i < k && xs[i] == Claim(oi) && NoSlotSince(xs, i + 1, k, oi)
  }

  predicate NoSlotSince(xs: seq<Section>, i: nat, k: nat, oi: nat)
    requires k <= |xs|
  {
    forall j :: i <= j < k ==> xs[j] != Unclaim(oi) && !(xs[j].Install? && xs[j].oi == oi)
  }

  /** No description is left over: at every moment of every run one that is in use and named by no slot is
      one that has been claimed and not installed yet. */
  lemma {:induction false} NothingLeftOver(s: seq<Sys>, xs: seq<Section>, k: nat, oi: nat)
    requires Run(s, xs) && k < |s| && Counted(s[0].ofs, s[0].tabs) && oi < |s[k].ofs|
    requires forall o :: 0 <= o < |s[0].ofs| && s[0].ofs[o].used ==> s[0].ofs[o].nref > 0
    requires s[k].ofs[oi].used && Count(s[k].tabs, {oi}) == 0
    ensures ClaimPending(xs, k, oi)
  {
    RunKeepsCounted(s, xs, k);
    if k > 0 {
      var a, x := s[k - 1], xs[k - 1];
      RunKeepsCounted(s, xs, k - 1);
      if x == Claim(oi) {
        assert NoSlotSince(xs, k, k, oi);
      } else {
        LeftOverBefore(a, x, oi);
        NothingLeftOver(s, xs, k - 1, oi);
        var i :| 0 <= i < k - 1 && xs[i] == Claim(oi) && NoSlotSince(xs, i + 1, k - 1, oi);
        assert NoSlotSince(xs, i + 1, k, oi);
      }
    }
  }

  lemma LeftOverBefore(s: Sys, x: Section, oi: nat)
    requires Counted(s.ofs, s.tabs) && Enabled(s, x) && x != Claim(oi) && oi < |Next(s, x).ofs|
    requires Next(s, x).ofs[oi].used && Next(s, x).ofs[oi].nref == 0
    ensures oi < |s.ofs| && s.ofs[oi].used && s.ofs[oi].nref == 0 && x != Unclaim(oi) && !(x.Install? && x.oi == oi)
  {
    hide Counted, Count;
    if x.Release? {
      ReleaseKeepsCounted(s.ofs, s.tabs, x.p, x.n);
    }
  }

  /** Some slot names an end of the pipe that `e` is an end of. */
  ghost predicate PipeNamed(s: Sys, e: End) {
    exists q: nat, m: nat :: Names(s, q, m) && s.ofs[s.tabs[q].fd[m]].end in {e, Twin(e)}
  }

  /** A release frees the pipe of the end it drops if and only if no slot names either end any more, and
      no other pipe. */
  lemma ReleaseFreesPipe(s: Sys, p: nat, n: nat)
    requires Accounted(s.ofs, s.tabs, s.pipes) && Enabled(s, Release(p, n))
    ensures var e, s' := s.ofs[s.tabs[p].fd[n]].end, Next(s, Release(p, n));
            && (e != NoEnd ==> (e in s'.pipes <==> PipeNamed(s', e)) && (e in s'.pipes <==> Twin(e) in s'.pipes))
            && forall f :: f !in {e, Twin(e)} ==> (f in s.pipes <==> f in s'.pipes)
  {
    hide Counted, Count, Dropped, Released;
    var oi := s.tabs[p].fd[n];
    var e, s' := s.ofs[oi].end, Next(s, Release(p, n));
    ReleaseKeeps(s.ofs, s.tabs, s.pipes, p, n);
    if e != NoEnd {
      if e in s'.pipes {
        var f := if s'.pipes[e] > 0 then e else Twin(e);
        assert Count(s'.tabs, Naming(s'.ofs, f)) > 0;
        var q, m := SomeSlot(s'.tabs, Naming(s'.ofs, f));
        NamedIsUsed(s', q, m);
        assert Names(s', q, m);
      } else if PipeNamed(s', e) {
        assert false;
      }
    }
  }

  lemma NamedIsUsed(s: Sys, q: nat, m: nat)
    requires Counted(s.ofs, s.tabs) && q < |s.tabs| && m < |s.tabs[q].fd| && s.tabs[q].fd[m] >= 0
    ensures Names(s, q, m)
  {
    assert TableOk(s.tabs[q], s.ofs);
  }

  /** A pipe just reserved stays so until its maker attaches it or gives it up. */
  lemma ReservedStays(s: Sys, x: Section, k: nat)
    requires Accounted(s.ofs, s.tabs, s.pipes) && Enabled(s, x) && Reserved(s.pipes, k)
    requires x != Unreserve(k) && (x.Attach? ==> x.k != k)
    ensures Reserved(Next(s, x).pipes, k)
  {
    hide Counted;
    ReservedIsUnnamed(s.ofs, s.tabs, s.pipes, k);
  }

  // ---- A fork while a pipe is made ------------------------------------------------------

  /** Thread one makes a pipe in table 0 and has claimed its read end; a thread of the same process
      forks and so copies that slot to table 1; then the pipe is attached. At last the child closes
      its copy. */
  function ForkInBetween(): seq<Section> {
    [Reserve(0), Claim(0), Install(0, 0, 0), Install(1, 0, 0),
     Claim(1), Install(0, 1, 1), Attach(0, 0, 1, 0), Release(1, 0)]
  }

  /** The pipe then counts no reader, though a slot of the parent still names its read end. */
  lemma ForkPutsReadersOut(s: Sys) returns (t: seq<Sys>)
    requires s.ofs == seq(OFILE_MAX, _ => Ofile(false, 0, NoEnd)) && s.pipes == map[]
    requires s.tabs == [Table(seq(FD_INLINE, _ => FREE), 0, 0), Table(seq(FD_INLINE, _ => FREE), 0, 0)]
    ensures Accounted(s.ofs, s.tabs, s.pipes) && Run(t, ForkInBetween()) && t[0] == s
    ensures !Accounted(t[7].ofs, t[7].tabs, t[7].pipes)
    ensures ReadEnd(0) in t[8].pipes && t[8].pipes[ReadEnd(0)] == 0
    ensures Names(t[8], 0, 0) && t[8].ofs[t[8].tabs[0].fd[0]].end == ReadEnd(0)
  {
    hide Accounted;
    FreshIsAccounted(s.ofs, s.tabs);
    var x := ForkInBetween();
    var u := BeforeTheFork(s);
    var v := FromTheFork(u[3]);
    t := u + v[1..];
    forall i | 0 <= i < |x| ensures Enabled(t[i], x[i]) && t[i + 1] == Next(t[i], x[i]) {
      if i < 3 {
        assert x[..3][i] == x[i];
      } else {
        assert x[3..][i - 3] == x[i];
      }
    }
    RunKeepsAccounted(t, x, 6);
    NextKeepsIff(t[6], x[6]);
  }

  lemma BeforeTheFork(s: Sys) returns (u: seq<Sys>)
    requires s.ofs == seq(OFILE_MAX, _ => Ofile(false, 0, NoEnd)) && s.pipes == map[]
    requires s.tabs == [Table(seq(FD_INLINE, _ => FREE), 0, 0), Table(seq(FD_INLINE, _ => FREE), 0, 0)]
    ensures Run(u, ForkInBetween()[..3]) && u[0] == s
    ensures u[3].pipes == map[ReadEnd(0) := 0, WriteEnd(0) := 0]
    ensures u[3].ofs == s.ofs[0 := Ofile(true, 1, NoEnd)]
    ensures u[3].tabs == [Installed(s.tabs[0], 0, 0), s.tabs[1]]
  {
    var x := ForkInBetween();
    var s1 := Next(s, x[0]);
    var s2 := Next(s1, x[1]);
    u := [s, s1, s2, Next(s2, x[2])];
  }

  lemma FromTheFork(s: Sys) returns (u: seq<Sys>)
    requires |s.ofs| == OFILE_MAX && |s.tabs| == 2 && s.ofs[0] == Ofile(true, 1, NoEnd)
             && s.ofs[1] == Ofile(false, 0, NoEnd)
    requires s.tabs[0] == Installed(Table(seq(FD_INLINE, _ => FREE), 0, 0), 0, 0)
    requires s.tabs[1] == Table(seq(FD_INLINE, _ => FREE), 0, 0)
    requires s.pipes == map[ReadEnd(0) := 0, WriteEnd(0) := 0]
    ensures Run(u, ForkInBetween()[3..]) && u[0] == s
    ensures !AttachesLonePair(u[3], ForkInBetween()[6])
    ensures ReadEnd(0) in u[5].pipes && u[5].pipes[ReadEnd(0)] == 0
    ensures Names(u[5], 0, 0) && u[5].ofs[u[5].tabs[0].fd[0]].end == ReadEnd(0)
  {
    var x := ForkInBetween();
    var s4, s5, s6 := BothEnds(s);
    var s7 := Next(s6, x[6]);
    assert s7.ofs[0] == Ofile(true, 2, ReadEnd(0));
    u := [s, s4, s5, s6, s7, Next(s7, x[7])];
  }

  lemma BothEnds(s: Sys) returns (s4: Sys, s5: Sys, s6: Sys)
    requires |s.ofs| == OFILE_MAX && |s.tabs| == 2 && s.ofs[0] == Ofile(true, 1, NoEnd)
             && s.ofs[1] == Ofile(false, 0, NoEnd)
    requires s.tabs[0] == Installed(Table(seq(FD_INLINE, _ => FREE), 0, 0), 0, 0)
    requires s.tabs[1] == Table(seq(FD_INLINE, _ => FREE), 0, 0)
    ensures var x := ForkInBetween();
            && Enabled(s, x[3]) && s4 == Next(s, x[3]) && Enabled(s4, x[4]) && s5 == Next(s4, x[4])
            && Enabled(s5, x[5]) && s6 == Next(s5, x[5])
    ensures |s6.ofs| == OFILE_MAX && |s6.tabs| == 2 && |s6.tabs[0].fd| == |s6.tabs[1].fd| == FD_INLINE
    ensures s6.tabs[0].fd[0] == 0 && s6.tabs[0].fd[1] == 1 && s6.tabs[1].fd[0] == 0 && s6.pipes == s.pipes
    ensures s6.ofs[0] == Ofile(true, 2, NoEnd) && s6.ofs[1] == Ofile(true, 1, NoEnd)
  {
    var x := ForkInBetween();
    s4 := Next(s, x[3]);
    assert s4.ofs[0] == Ofile(true, 2, NoEnd);
    s5 := Next(s4, x[4]);
    s6 := Next(s5, x[5]);
  }

  /** Growth, interleaved with anything, loses no entry: a slot keeps its description until a section
      releases that very slot. */
  lemma {:induction false} EntriesSurvive(s: seq<Sys>, xs: seq<Section>, p: nat, n: nat, k: nat)
    requires Run(s, xs) && k < |s| && p < |s[0].tabs| && n < |s[0].tabs[p].fd| && s[0].tabs[p].fd[n] >= 0
    requires forall i :: 0 <= i < k ==> xs[i] != Release(p, n)
    ensures |s[k].tabs| == |s[0].tabs| && n < |s[k].tabs[p].fd| && s[k].tabs[p].fd[n] == s[0].tabs[p].fd[n]
  {
    if k > 0 {
      EntriesSurvive(s, xs, p, n, k - 1);
    }
  }

  // ---- The search hint ------------------------------------------------------------------

  /** An installation made at the slot that a search from 0 yields. */
  predicate FromZero(t: Table, n: nat) {
    n < |t.fd| && t.fd[n] < 0 && t.nextFd <= n && forall i :: t.nextFd <= i < n ==> t.fd[i] >= 0
  }

  ghost predicate AllTight(s: Sys) {
    forall p :: 0 <= p < |s.tabs| ==> HintIsTight(s.tabs[p]) && s.tabs[p].nextFd <= |s.tabs[p].fd|
  }

  /** When every installation takes what a search from 0 yields, the hints stay tight, so that search
      always yields the lowest free slot of the table. */
  lemma {:induction false} HintsStayTight(s: seq<Sys>, xs: seq<Section>, k: nat)
    requires Run(s, xs) && k < |s| && AllTight(s[0])
    requires forall i :: 0 <= i < |xs| && xs[i].Install? ==> FromZero(s[i].tabs[xs[i].p], xs[i].n)
    ensures AllTight(s[k])
    ensures forall p, n :: 0 <= p < |s[k].tabs| && FromZero(s[k].tabs[p], n) ==>
              forall i :: 0 <= i < n ==> s[k].tabs[p].fd[i] >= 0
  {
    if k > 0 {
      HintsStayTight(s, xs, k - 1);
      var a, x := s[k - 1], xs[k - 1];
      forall p | 0 <= p < |s[k].tabs| ensures HintIsTight(s[k].tabs[p]) && s[k].tabs[p].nextFd <= |s[k].tabs[p].fd| {
        assert HintIsTight(a.tabs[p]);
      }
    }
  }

  /** One installation keeps a tight hint tight if and only if it takes what a search from 0 yields. */
  lemma InstallKeepsTightIff(t: Table, n: nat, oi: nat)
    requires HintIsTight(t) && t.nextFd <= |t.fd| && n < |t.fd| && t.fd[n] < 0
    ensures HintIsTight(Installed(t, n, oi)) <==> FromZero(t, n)
  {
    var t' := Installed(t, n, oi);
    forall i | 0 <= i < n && i < |t.fd| ensures t'.fd[i] == t.fd[i] {
    }
    if FromZero(t, n) {
      forall i | 0 <= i < t'.nextFd && i < |t'.fd| ensures t'.fd[i] >= 0 {
        assert i < t.nextFd ==> t.fd[i] >= 0;
      }
    }
    if HintIsTight(t') {
      forall i | t.nextFd <= i < n ensures t.fd[i] >= 0 {
        assert t'.fd[i] >= 0;
      }
    }
  }

  /** A fork copies slots to the numbers they have, which is no search: of a parent that has closed slot 1
      of three, the child gets slots 0 and 2, and its search from 0 yields 3 while 1 is free. */
  lemma ForkSkipsFreeSlots(child: Table, a: nat, b: nat)
    requires child == Table(seq(FD_INLINE, _ => FREE), 0, 0)
    ensures HintIsTight(Installed(child, 0, a))
    ensures var t := Installed(Installed(child, 0, a), 2, b);
            !HintIsTight(t) && t.fd[1] < 0 && FromZero(t, 3)
  {
    InstallKeepsTightIff(child, 0, a);
    var t := Installed(child, 0, a);
    assert t.fd[1] < 0 && t.nextFd == 1;
    InstallKeepsTightIff(t, 2, b);
    assert Installed(t, 2, b).fd[1] < 0 && Installed(t, 2, b).fd[3] < 0;
  }

  /** A search from a higher minimum breaks the promise of the hint: after one installation at 5 in
      an empty table, the search from 0 yields 6 while 0 is free. */
  lemma HintCanSkipFreeSlots(t: Table)
    requires t == Table(seq(FD_INLINE, _ => FREE), 0, 0)
    ensures var t' := Installed(t, 5, 0); !HintIsTight(t') && t'.fd[0] < 0 && FromZero(t', 6)
  {
    assert Installed(t, 5, 0).fd[0] < 0;
  }
}
