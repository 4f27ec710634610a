/** The file interface the editor is given: every call is answered by an adversary, who may fail it
    or make it short. What a call does when it succeeds is the file system's side of the contract. */
module EditorIo {
  import opened Bytes

  type Name = seq<Byte>

  function Overwrite(f: seq<Byte>, pos: nat, data: seq<Byte>): seq<Byte>
    requires pos <= |f|
  {
    f[..pos] + data + if pos + |data| <= |f| then f[pos + |data|..] else []
  }

  /** A call, and whether it did what was asked, at least in part. */
  datatype Call = Opening(name: Name, create: bool, ok: bool) | Writing(ok: bool) | Reading(ok: bool)
                | Truncating(ok: bool) | Closing(ok: bool) | Syncing(ok: bool)

  /** Every call from number `n` on went well. */
  predicate GoodFrom(log: seq<Call>, n: nat) {
    forall i :: n <= i < |log| ==> log[i].ok
  }

  lemma OneMoreCall(log: seq<Call>, c: Call, n: nat)
    requires n <= |log|
    ensures GoodFrom(log + [c], n) <==> GoodFrom(log, n) && c.ok
  {
    var all := log + [c];
    assert all[|log|] == c && forall i :: 0 <= i < |log| ==> all[i] == log[i];
  }

  lemma NoCalls(log: seq<Call>)
    ensures GoodFrom(log, |log|)
  {
  }

  lemma GoodContinues(log: seq<Call>, later: seq<Call>, n: nat)
    requires n <= |log| && log <= later
    ensures GoodFrom(later, n) <==> GoodFrom(log, n) && GoodFrom(later, |log|)
  {
    assert forall i :: 0 <= i < |log| ==> later[i] == log[i];
  }

  class Io {
    var files: map<Name, seq<Byte>>
    var script: seq<int>
    var log: seq<Call>

    constructor (files: map<Name, seq<Byte>>, script: seq<int>)
      ensures this.files == files && this.script == script && log == []
    {
      this.files, this.script, log := files, script, [];
    }

    method Answer() returns (r: int)
      modifies this`script
      ensures r == if old(script) == [] then -1 else old(script)[0]
    {
      r := -1;
      if script != [] {
        r, script := script[0], script[1..];
      }
    }

    /** Flags 0 opens an existing file only; flags 1 creates one; neither truncates. */
    method Open(name: Name, create: bool) returns (ok: bool)
      modifies this
      ensures ok <==> old(script) != [] && old(script)[0] >= 0 && (create || name in old(files))
      ensures files == if ok && name !in old(files) then old(files)[name := []] else old(files)
      ensures log == old(log) + [Opening(name, create, ok)]
    {
      var a := Answer();
      ok := a >= 0 && (name in files || create);
      log := log + [Opening(name, create, ok)];
      if ok && name !in files {
        files := files[name := []];
      }
    }

    /** A count in `1..want` says that many bytes were stored. */
    method Write(name: Name, pos: nat, chunk: seq<Byte>) returns (r: int)
      requires name in files && pos <= |files[name]|
      modifies this
      ensures files == if 0 < r <= |chunk| then old(files)[name := Overwrite(old(files)[name], pos, chunk[..r])]
                       else old(files)
      ensures log == old(log) + [Writing(0 < r <= |chunk|)]
    {
      r := Answer();
      log := log + [Writing(0 < r <= |chunk|)];
      if 0 < r <= |chunk| {
        files := files[name := Overwrite(files[name], pos, chunk[..r])];
      }
    }

    /** A count in `0..want` says that many bytes were delivered; 0 means the end of the file. */
    method Read(name: Name, pos: nat, want: nat) returns (r: int, data: seq<Byte>)
      requires name in files && pos <= |files[name]| && want > 0
      modifies this`script, this`log
      ensures 0 <= r <= want ==> pos + r <= |files[name]| && data == files[name][pos..pos + r]
      ensures 0 <= r <= want ==> (r == 0 <==> pos == |files[name]|)
      ensures log == old(log) + [Reading(0 <= r <= want)]
    {
      r := Answer();
      data := [];
      log := log + [Reading(0 <= r <= want)];
      if 0 <= r <= want {
        var left := |files[name]| - pos;
        r := if left == 0 then 0 else if r == 0 then 1 else if r < left then r else left;
        data := files[name][pos..pos + r];
      }
    }

    method Truncate(name: Name, len: nat) returns (ok: bool)
      requires name in files && len <= |files[name]|
      modifies this
      ensures files == if ok then old(files)[name := old(files)[name][..len]] else old(files)
      ensures log == old(log) + [Truncating(ok)]
    {
      var a := Answer();
      ok := a >= 0;
      log := log + [Truncating(ok)];
      if ok {
        files := files[name := files[name][..len]];
      }
    }

    method Close() returns (ok: bool)
      modifies this`script, this`log
      ensures log == old(log) + [Closing(ok)]
    {
      var a := Answer();
      ok := a >= 0;
      log := log + [Closing(ok)];
    }

    method Sync() returns (ok: bool)
      modifies this`script, this`log
      ensures log == old(log) + [Syncing(ok)]
    {
      var a := Answer();
      ok := a >= 0;
      log := log + [Syncing(ok)];
    }
  }
}
