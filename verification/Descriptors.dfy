/** The descriptor calls over shared tables. The methods named `Locked` run inside one section under
    the lock; `AllocInstall` and `Expand` release it in between, and `others` says what other threads
    do at each such moment. */
module Descriptors {
  import opened Common
  import opened Files
  import opened Powers

  const NONE: int := -1

  /** What other threads do at a moment at which a call does not hold the lock. */
  type Others = nat -> seq<Section>

  class Kernel {
    var ofs: seq<Ofile>
    var tabs: seq<Table>
    var pipes: map<End, nat>
    ghost var past: seq<Sys>
    ghost var sections: seq<Section>

    ghost function Now(): Sys
      reads this
    {
      Sys(ofs, tabs, pipes)
    }

    /** Every description is counted exactly, and the history recorded is a run that ends in the present
        state. */
    ghost predicate Valid()
      reads this
    {
      && |ofs| == OFILE_MAX && Counted(ofs, tabs)
      && Run(past, sections) && |past| == |sections| + 1 && past[|past| - 1] == Now()
    }

    /** Only whole sections happened since the state of the caller. */
    twostate predicate Continues()
      reads this
    {
      && old(past) <= past && old(sections) <= sections
      && |tabs| == old(|tabs|)
    }

    /** `files_init` for every process, with no description and no pipe in use. */
    constructor (processes: nat)
      ensures Valid() && |tabs| == processes && pipes == map[]
      ensures past == [Now()] && sections == [] && Accounted(ofs, tabs, pipes)
      ensures forall p :: 0 <= p < processes ==> tabs[p] == Table(seq(FD_INLINE, _ => FREE), 0, 0)
      ensures forall oi :: 0 <= oi < OFILE_MAX ==> !ofs[oi].used
    {
      ofs := seq(OFILE_MAX, _ => Ofile(false, 0, NoEnd));
      tabs := seq(processes, _ => Table(seq(FD_INLINE, _ => FREE), 0, 0));
      pipes := map[];
      sections := [];
      new;
      past := [Now()];
      FreshIsAccounted(ofs, tabs);
    }

    /** Record that the state changed by one section. */
    ghost method Note(x: Section)
      requires Run(past, sections) && Enabled(past[|past| - 1], x)
      requires Counted(past[|past| - 1].ofs, past[|past| - 1].tabs)
      requires Now() == Next(past[|past| - 1], x)
      modifies this`past, this`sections
      ensures Valid()
      ensures past == old(past) + [Now()] && sections == old(sections) + [x]
    {
      NextKeepsCounted(past[|past| - 1], x);
      RunExtends(past, sections, x);
      past, sections := past + [Now()], sections + [x];
    }

    /** `ofile_new_locked`: the first description not in use. */
    method NewLocked() returns (oi: int)
      requires Valid()
      modifies this
      ensures Valid() && Continues()
      ensures oi == NONE <==> forall i :: 0 <= i < OFILE_MAX ==> old(ofs[i].used)
      ensures oi == NONE ==> Now() == old(Now())
      ensures oi != NONE ==> oi >= 0 && Enabled(old(Now()), Claim(oi)) && Now() == Next(old(Now()), Claim(oi))
      ensures oi != NONE ==> forall i :: 0 <= i < oi ==> old(ofs[i].used)
    {
      var i := 0;
      while i < OFILE_MAX
        invariant Valid() && Now() == old(Now()) && past == old(past) && sections == old(sections)
        invariant i <= OFILE_MAX && forall k :: 0 <= k < i ==> ofs[k].used
      {
        if !ofs[i].used {
          ofs := ofs[i := Ofile(true, 0, NoEnd)];
          Note(Claim(i));
          return i;
        }
        i := i + 1;
      }
      oi := NONE;
    }

    /** `fd_install_locked`: slot `n` names description `oi`, which gains a reference, and so does the
        pipe end it stands for. */
    method InstallLocked(p: nat, n: nat, oi: nat)
      requires Valid() && Enabled(Now(), Install(p, n, oi))
      modifies this
      ensures Valid() && Continues()
      ensures Now() == Next(old(Now()), Install(p, n, oi))
      ensures sections == old(sections) + [Install(p, n, oi)]
    {
      var t := tabs[p];
      t := t.(fd := t.fd[n := oi]);
      t := t.(nopen := t.nopen + 1);
      if n >= t.nextFd {
        t := t.(nextFd := n + 1);
      }
      tabs := tabs[p := t];
      var o := ofs[oi];
      ofs := ofs[oi := o.(nref := o.nref + 1)];
      if o.end != NoEnd && o.end in pipes {
        pipes := pipes[o.end := pipes[o.end] + 1];
      }
      Note(Install(p, n, oi));
    }

    /** `fd_lookup_locked`: the description slot `n` names. */
    method LookupLocked(p: nat, n: int) returns (oi: int)
      requires Valid() && p < |tabs|
      ensures oi == NONE <==> !(0 <= n < |tabs[p].fd| && tabs[p].fd[n] != FREE)
      ensures oi != NONE ==> oi == tabs[p].fd[n] && 0 <= oi < OFILE_MAX && ofs[oi].used
    {
      assert TableOk(tabs[p], ofs);
      if n < 0 || n >= |tabs[p].fd| {
        return NONE;
      }
      oi := tabs[p].fd[n];
      if oi < 0 || !ofs[oi].used {
        return NONE;
      }
    }

    /** No slot of any table holds the number. */
    ghost predicate Unnamed(oi: int)
      reads this
    {
      forall q, m :: 0 <= q < |tabs| && 0 <= m < |tabs[q].fd| ==> tabs[q].fd[m] != oi
    }

    /** `fd_release_locked`: an open slot becomes free and its references go; the answer says whether
        the description went with them. Any other number changes nothing. */
    method ReleaseLocked(p: nat, n: int) returns (freed: bool)
      requires Valid() && p < |tabs|
      modifies this
      ensures Valid() && Continues()
      ensures if 0 <= n < |old(tabs[p].fd)| && old(tabs[p].fd[n]) != FREE
              then Enabled(old(Now()), Release(p, n)) && Now() == Next(old(Now()), Release(p, n))
              else Now() == old(Now())
      ensures freed <==> 0 <= n < |old(tabs[p].fd)| && old(tabs[p].fd[n]) != FREE && Unnamed(old(tabs[p].fd[n]))
      ensures 0 <= n < |old(tabs[p].fd)| && old(tabs[p].fd[n]) != FREE ==>
                (freed <==> !ofs[old(tabs[p].fd[n])].used)
    {
      hide Counted;
      TableIsOk(ofs, tabs, p);
      if n < 0 || n >= |tabs[p].fd| {
        return false;
      }
      var oi := tabs[p].fd[n];
      if oi < 0 || !ofs[oi].used {
        return false;
      }
      freed := CloseSlot(p, n, oi);
      if freed {
        UnusedIsUnnamed(ofs, tabs, oi);
      } else {
        NamedSomewhere(ofs, tabs, oi);
      }
    }

    /** `pipe_unref_locked`: one end less; with the last one of both the pipe is unused again. */
    method UnrefLocked(e: End)
      modifies this`pipes
      ensures pipes == Unref(old(pipes), e)
    {
      if e == NoEnd || e !in pipes {
        return;
      }
      pipes := pipes[e := if pipes[e] > 0 then pipes[e] - 1 else 0];
      if pipes[e] == 0 && Twin(e) in pipes && pipes[Twin(e)] == 0 {
        pipes := pipes - {e, Twin(e)};
      }
    }

    /** The part of `fd_release_locked` past its checks. */
    method CloseSlot(p: nat, n: nat, oi: nat) returns (freed: bool)
      requires Valid() && Enabled(Now(), Release(p, n)) && oi == tabs[p].fd[n] && ofs[oi].used
      modifies this
      ensures Valid() && Continues()
      ensures Now() == Next(old(Now()), Release(p, n))
      ensures freed <==> !ofs[oi].used
      ensures freed || ofs[oi].nref > 0
    {
      hide Counted, TableOk, Run, Unref;
      ReleaseKeepsCounted(ofs, tabs, p, n);
      var t := tabs[p];
      t := t.(fd := t.fd[n := FREE]);
      if t.nopen > 0 {
        t := t.(nopen := t.nopen - 1);
      }
      if n < t.nextFd {
        t := t.(nextFd := n);
      }
      tabs := tabs[p := t];
      var o := ofs[oi];
      UnrefLocked(o.end);
      ofs := ofs[oi := o.(nref := o.nref - 1)];
      freed := ofs[oi].nref == 0;
      if freed {
        ofs := ofs[oi := Ofile(false, 0, NoEnd)];
      }
      Note(Release(p, n));
    }

    /** What other threads do while the lock is free: any sections that are possible at that moment. */
    method Elsewhere(xs: seq<Section>)
      requires Valid()
      modifies this
      ensures Valid() && Continues()
      ensures xs == [] ==> Now() == old(Now()) && sections == old(sections)
    {
      hide Counted;
      for i := 0 to |xs|
        invariant Valid() && Continues()
        invariant xs == [] ==> Now() == old(Now()) && sections == old(sections)
      {
        if Enabled(Sys(ofs, tabs, pipes), xs[i]) {
          var s := Next(Sys(ofs, tabs, pipes), xs[i]);
          ofs, tabs, pipes := s.ofs, s.tabs, s.pipes;
          Note(xs[i]);
        }
      }
    }

    /** `files_expand`: the table gets the least size that holds `want` slots, unless another thread
        was faster. The new size is worked out, and the memory found, before the lock is taken. */
    method Expand(p: nat, want: nat, memory: bool, others: seq<Section>) returns (ok: bool)
      requires Valid() && p < |tabs|
      modifies this
      ensures Valid() && Continues()
      ensures ok <==> want <= FD_MAX && memory
      ensures !ok ==> Now() == old(Now())
      ensures ok ==> |tabs[p].fd| >= want
      ensures ok && others == [] ==>
                || (Now() == old(Now()) && want <= |old(tabs[p].fd)|)
                || (|tabs[p].fd| < 2 * want && Now() == Next(old(Now()), Grow(p, |tabs[p].fd|)))
    {
      assert TableOk(tabs[p], ofs);
      if want > FD_MAX {
        return false;
      }
      var cap := |tabs[p].fd|;
      while cap < want
        invariant IsSize(cap) && (cap == |tabs[p].fd| || cap < 2 * want)
      {
        cap := cap * 2;
      }
      if cap > FD_MAX {
        cap := FD_MAX;
      }
      if !memory {
        return false;
      }
      Elsewhere(others);
      ok := true;
      GrowTo(p, cap);
    }

    /** The section of `files_expand`: the open slots are copied to the larger table. */
    method GrowTo(p: nat, cap: nat)
      requires Valid() && p < |tabs| && IsSize(cap)
      modifies this
      ensures Valid() && Continues()
      ensures Now() == Next(old(Now()), Grow(p, cap))
    {
      var fd := seq(cap, _ => FREE);
      if |tabs[p].fd| >= cap {
        return;
      }
      var i := 0;
      while i < |tabs[p].fd|
        invariant i <= |tabs[p].fd| && |fd| == cap
        invariant fd[..i] == tabs[p].fd[..i]
        invariant forall k :: i <= k < cap ==> fd[k] == FREE
      {
        fd := fd[i := tabs[p].fd[i]];
        i := i + 1;
      }
      assert fd == Grown(tabs[p], cap).fd;
      tabs := tabs[p := tabs[p].(fd := fd)];
      Note(Grow(p, cap));
    }

    /** One section of `fd_alloc_install`: the slot taken, if the description is still in use and a slot
        is free. */
    method TryInstall(p: nat, oi: nat, min: nat) returns (fd: int)
      requires Valid() && p < |tabs| && oi < OFILE_MAX
      modifies this
      ensures Valid() && Continues()
      ensures fd == NONE <==> Refused(old(Now()), p, oi, min)
      ensures fd == NONE ==> Now() == old(Now()) && past == old(past) && sections == old(sections)
      ensures fd != NONE ==> min <= fd < FD_MAX && Enabled(old(Now()), Install(p, fd, oi))
                             && Now() == Next(old(Now()), Install(p, fd, oi))
                             && sections == old(sections) + [Install(p, fd, oi)]
      ensures fd != NONE && HintIsTight(old(tabs[p])) && min == 0 ==> Taken(old(tabs[p]), 0, fd)
    {
      hide Counted;
      TableIsOk(ofs, tabs, p);
      if !ofs[oi].used {
        return NONE;
      }
      var r := FindFree(tabs[p], min);
      if r.Slot? {
        InstallLocked(p, r.n, oi);
        return r.n;
      }
      fd := NONE;
    }

    /** The other part of a round of `fd_alloc_install`, without the lock: the table gets room for `min`
        and for a further slot, `full` slots having been taken when the lock was given back. */
    method MakeRoom(p: nat, min: nat, full: nat, memory: bool, before: seq<Section>, during: seq<Section>)
      returns (ok: bool)
      requires Valid() && p < |tabs| && min < U32 && IsSize(full) && full <= |tabs[p].fd|
      modifies this
      ensures Valid() && Continues()
      ensures before == [] && during == [] && full == |old(tabs[p].fd)| && min < FD_MAX ==>
                && (ok <==> full < FD_MAX && memory)
                && if ok then Enlarged(old(Now()), Now(), p, min) else Now() == old(Now())
    {
      hide Counted, Run;
      TableIsOk(ofs, tabs, p);
      var want := full * 2;
      if want < (min + 1) % U32 {
        want := (min + 1) % U32;
      }
      Elsewhere(before);
      if |tabs[p].fd| >= FD_MAX {
        return false;
      }
      ok := Expand(p, want, memory, during);
      TableIsOk(ofs, tabs, p);
    }

    /** One round of `fd_alloc_install`; `others` says what happens before it, and around its growth. */
    method Round(p: nat, oi: nat, min: nat, memory: bool, others: Others, k: nat) returns (fd: int, again: bool)
      requires Valid() && p < |tabs| && oi < OFILE_MAX && min < U32
      modifies this
      ensures Valid() && Continues()
      ensures fd != NONE ==> |sections| > |old(sections)| && min <= fd < FD_MAX
                             && sections[|sections| - 1] == Install(p, fd, oi)
      ensures fd == NONE ==> EverRefused(past, |old(past)| - 1, p, oi, min)
      ensures Quiet(others) ==> (fd == NONE <==> Refused(old(Now()), p, oi, min))
      ensures Quiet(others) && fd != NONE ==> !Open(old(tabs[p]), fd)
      ensures Quiet(others) && fd != NONE && HintIsTight(old(tabs[p])) && min == 0 ==> Taken(old(tabs[p]), 0, fd)
      ensures Quiet(others) && min < FD_MAX && again ==> old(ofs[oi].used) && Enlarged(old(Now()), Now(), p, min)
      ensures Quiet(others) && min < FD_MAX && fd == NONE && !again && memory ==>
                !old(ofs[oi].used) || |old(tabs[p].fd)| == FD_MAX
    {
      hide Counted, Run;
      again := false;
      Elsewhere(others(k));
      TableIsOk(ofs, tabs, p);
      fd := TryInstall(p, oi, min);
      if fd != NONE {
        return;
      }
      assert Refused(past[|past| - 1], p, oi, min);
      if !ofs[oi].used {
        return;
      }
      again := MakeRoom(p, min, |tabs[p].fd|, memory, others(k + 1), others(k + 2));
    }

    /** `fd_alloc_install`: with memory to be had and no other thread about, it fails exactly when the
        description is not in use or no number from `min` on is left. Whatever others do, a number it
        returns was just then a free slot, which now names `oi`, and it fails only if at some moment of
        the call the description was unused or the table full. */
    method AllocInstall(p: nat, oi: nat, min: nat, memory: nat -> bool, others: Others) returns (fd: int)
      requires Valid() && p < |tabs| && oi < OFILE_MAX && min < U32
      modifies this
      ensures Valid() && Continues()
      ensures fd != NONE ==> |sections| > |old(sections)| && min <= fd < FD_MAX
                             && sections[|sections| - 1] == Install(p, fd, oi)
      ensures fd == NONE ==> EverRefused(past, |old(past)| - 1, p, oi, min)
      ensures Quiet(others) && (forall k :: memory(k)) ==>
                (fd == NONE <==> !old(ofs[oi].used) || NoNumberLeft(old(tabs[p]), min))
      ensures Quiet(others) && fd != NONE && HintIsTight(old(tabs[p])) && min == 0 ==>
                forall i :: 0 <= i < fd ==> Open(old(tabs[p]), i)
    {
      hide Counted, Run;
      var again;
      TableIsOk(ofs, tabs, p);
      for attempt := 0 to 3
        invariant Valid() && Continues()
        invariant Quiet(others) && min < FD_MAX ==>
                    if attempt == 0 then Now() == old(Now())
                    else attempt == 1 && old(ofs[oi].used) && Enlarged(old(Now()), Now(), p, min)
                         && Refused(old(Now()), p, oi, min)
        invariant attempt > 0 ==> EverRefused(past, |old(past)| - 1, p, oi, min)
      {
        if attempt == 1 && Enlarged(old(Now()), Now(), p, min) && min < FD_MAX {
          EnlargedHasRoom(old(Now()), Now(), p, oi, min);
        }
        fd, again := Round(p, oi, min, memory(attempt), others, 3 * attempt);
        if fd != NONE || !again {
          return;
        }
      }
      fd := NONE;
    }
  }

  /** From moment `i` on the request could at some moment not be met. */
  ghost predicate EverRefused(past: seq<Sys>, i: int, p: nat, oi: nat, min: nat) {
    exists k :: 0 <= k < |past| && i <= k && Refused(past[k], p, oi, min)
  }

  /** Table `p` has grown to hold number `min` and a further slot. */
  predicate Enlarged(s: Sys, s': Sys, p: nat, min: nat) {
    && p < |s.tabs| && p < |s'.tabs|
    && |s.tabs[p].fd| < |s'.tabs[p].fd| <= FD_MAX && min < |s'.tabs[p].fd|
    && s' == s.(tabs := s.tabs[p := Grown(s.tabs[p], |s'.tabs[p].fd|)])
  }

  lemma EnlargedHasRoom(s: Sys, s': Sys, p: nat, oi: nat, min: nat)
    requires Enlarged(s, s', p, min) && min < FD_MAX
    ensures !NoNumberLeft(s.tabs[p], min) && !Taken(s'.tabs[p], min, |s'.tabs[p].fd|)
    ensures s.tabs[p].nextFd <= |s.tabs[p].fd| && HintIsTight(s.tabs[p]) ==> HintIsTight(s'.tabs[p])
    ensures forall n :: min <= n && Taken(s'.tabs[p], min, n) ==>
              n <= Max(min, |s.tabs[p].fd|) && Taken(s.tabs[p], min, n)
  {
    var free := Max(min, |s.tabs[p].fd|);
    assert !Open(s.tabs[p], free) && s'.tabs[p].fd[free] == FREE;
    forall n | min <= n && Taken(s'.tabs[p], min, n) ensures n <= free && Taken(s.tabs[p], min, n) {
      forall i | min <= i < n && i < |s.tabs[p].fd| ensures s.tabs[p].fd[i] >= 0 {
        assert s'.tabs[p].fd[i] == s.tabs[p].fd[i];
      }
    }
  }

  ghost predicate Quiet(others: Others) {
    forall k :: others(k) == []
  }

  /** A moment at which a request for a slot cannot be met: the description is gone, or every slot of
      the table from `min` on is open. */
  predicate Refused(s: Sys, p: nat, oi: nat, min: nat) {
    p < |s.tabs| && oi < |s.ofs| && (!s.ofs[oi].used || Taken(s.tabs[p], min, |s.tabs[p].fd|))
  }

  /** Every descriptor number from `min` on is in use, those the table does not hold yet included. */
  predicate NoNumberLeft(t: Table, min: nat) {
    forall i :: min <= i < FD_MAX ==> Open(t, i)
  }

  predicate Open(t: Table, n: nat) {
    n < |t.fd| && t.fd[n] >= 0
  }
}
