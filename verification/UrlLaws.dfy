/** Where references lead and what addresses mean, said of the bytes that are written. */
module UrlLaws {
  import opened Bytes
  import opened Common
  import opened Url

  // ---- Which path a reference names -----------------------------------------------------

  /** Against a base whose path is a folder, a name and perhaps a query: a reference with a slash in front
      is the path itself, one that begins with `?` or `#` goes behind folder and name, and any other one
      behind the folder. */
  lemma ReferenceMerges(u: Address, folder: Text, name: Text, query: Text, ref: Text)
    requires u.path == folder + name + query && folder != [] && folder[|folder| - 1] == 47
    requires 63 !in folder && 63 !in name && 47 !in name && (query != [] ==> query[0] == 63) && ref != []
    ensures Merged(u, ref) == if ref[0] == 47 then ref
                              else if ref[0] == 63 || ref[0] == 35 then folder + name + ref
                              else folder + ref
  {
    var p := folder + name;
    UntilIs(u.path, {QUERY}, |p|);
    assert u.path[..|p|] == p;
    LastSlashIs(folder, name);
    assert p[..|folder|] == folder;
  }

  lemma {:induction false} LastSlashIs(folder: Text, name: Text)
    requires folder != [] && folder[|folder| - 1] == 47 && 47 !in name
    ensures LastSlash(folder + name) == |folder|
  {
    if name == [] {
      assert folder + name == folder;
    } else {
      assert (folder + name)[..|folder + name| - 1] == folder + name[..|name| - 1];
      LastSlashIs(folder, name[..|name| - 1]);
    }
  }

  // ---- What the segments of a path do ---------------------------------------------------

  /** A part of a path up to its slash: a name, `.`, `..`, or nothing. */
  datatype Part = Folder(name: Text) | Here | Up | Empty

  predicate IsName(s: Text) {
    s !in {[], [46], [46, 46]} && 47 !in s && 63 !in s && 35 !in s
  }

  predicate PartOk(x: Part) { x.Folder? ==> IsName(x.name) }

  function PrintPart(x: Part): Text {
    match x
    case Folder(name) => name + [47]
    case Here => [46, 47]
    case Up => [46, 46, 47]
    case Empty => [47]
  }

  /** The part without its slash. */
  function Segment(x: Part): Text { PrintPart(x)[..|PrintPart(x)| - 1] }

  function PrintParts(xs: seq<Part>): Text {
    if xs == [] then [] else PrintPart(xs[0]) + PrintParts(xs[1..])
  }

  /** The folders one is in after the parts: a name goes in, `..` goes out, but never above the root. */
  function Inside(at: seq<Text>, xs: seq<Part>): seq<Text>
    decreases |xs|
  {
    if xs == [] then at
    else
      match xs[0]
      case Folder(name) => Inside(at + [name], xs[1..])
      case Up => Inside(if at == [] then at else at[..|at| - 1], xs[1..])
      case _ => Inside(at, xs[1..])
  }

  lemma NameIsPlain(s: Text)
    ensures IsName(s) <==> Plain(s)
  {
    if IsName(s) {
      forall i | 0 <= i < |s| ensures s[i] !in Ends() {
        assert s[i] in s;
      }
    }
  }

  /** Every path resolves to the folders its parts lead into, and what stands behind its last slash: a
      name stays, `.` and nothing leave the folder, `..` leaves the one above. */
  lemma {:induction false} PathResolves(at: seq<Text>, xs: seq<Part>, last: Text)
    requires (forall i :: 0 <= i < |xs| ==> PartOk(xs[i])) && (IsName(last) || last in {[], [46], [46, 46]})
    ensures var s := Inside(at, xs);
            Resolved(at, PrintParts(xs) + last) ==
              if last == [46, 46] then Folders(if s == [] then s else s[..|s| - 1])
              else if last == [46] then Folders(s)
              else Folders(s) + last
    decreases |xs|
  {
    if xs == [] {
      assert PrintParts(xs) + last == last;
      LastPart(at, last);
    } else {
      var rest := PrintParts(xs[1..]) + last;
      assert PrintParts(xs) + last == PrintPart(xs[0]) + rest;
      FirstPart(at, xs[0], rest);
      PathResolves(Inside(at, [xs[0]]), xs[1..], last);
      OnePart(at, xs);
    }
  }

  lemma OnePart(at: seq<Text>, xs: seq<Part>)
    requires xs != []
    ensures Inside(Inside(at, [xs[0]]), xs[1..]) == Inside(at, xs)
  {
    assert [xs[0]][1..] == [];
  }

  lemma FirstPart(at: seq<Text>, x: Part, rest: Text)
    requires PartOk(x)
    ensures Resolved(at, PrintPart(x) + rest) == Resolved(Inside(at, [x]), rest)
  {
    hide Folders, Plain, IsName;
    var seg := Segment(x);
    NoEnds(x, seg);
    var s := PrintPart(x) + rest;
    assert s == seg + ([47] + rest);
    UntilIs(s, Ends(), |seg|);
    assert s[..|seg|] == seg && s[|seg| + 1..] == rest;
    assert [x][1..] == [];
    assert Inside(at, [x]) == Push(at, seg) by { NameIsPlain(seg); PushIs(at, x, seg); }
  }

  lemma NoEnds(x: Part, seg: Text)
    requires PartOk(x) && seg == Segment(x)
    ensures forall i :: 0 <= i < |seg| ==> seg[i] !in Ends()
  {
    if x.Folder? {
      NameIsPlain(seg);
    }
  }

  lemma PushIs(at: seq<Text>, x: Part, seg: Text)
    requires PartOk(x) && seg == Segment(x)
    ensures Push(at, seg) == Inside(at, [x])
  {
    assert [x][1..] == [];
    assert forall s: seq<Text> :: Inside(s, []) == s;
  }

  lemma LastPart(at: seq<Text>, last: Text)
    requires IsName(last) || last in {[], [46], [46, 46]}
    ensures Resolved(at, last) ==
              if last == [46, 46] then Folders(if at == [] then at else at[..|at| - 1])
              else if last == [46] then Folders(at)
              else Folders(at) + last
  {
    NameIsPlain(last);
    UntilIs(last, Ends(), |last|);
    assert last[..|last|] == last;
  }

  // ---- Addresses ------------------------------------------------------------------------

  /** `http://` and a host mean port 80, `https://` and a host port 443, both without further words. */
  lemma DefaultPorts(host: Text)
    requires HostOk(host) && LowerAll(host) == host
    ensures Parse([104, 116, 116, 112, 58, 47, 47] + host + [47]) == Some(Address(host, [47], 80, false))
    ensures Parse([104, 116, 116, 112, 115, 58, 47, 47] + host + [47]) == Some(Address(host, [47], 443, true))
  {
    var u, v := Address(host, [47], 80, false), Address(host, [47], 443, true);
    assert Ascii("http://") == [104, 116, 116, 112, 58, 47, 47];
    assert Ascii("https://") == [104, 116, 116, 112, 115, 58, 47, 47];
    assert Origin(u) + [47] == [104, 116, 116, 112, 58, 47, 47] + host + [47];
    assert Origin(v) + [47] == [104, 116, 116, 112, 115, 58, 47, 47] + host + [47];
    LegalHost(host);
    assert Legal(Origin(u) + [47]) && Legal(Origin(v) + [47]);
    OriginParses(u, [47]);
    OriginParses(v, [47]);
    UntilIs([47], {HASH}, 1);
    assert [47][..1] == [47];
  }

  lemma LegalHost(host: Text)
    requires HostOk(host)
    ensures Legal(host)
  {
    forall i | 0 <= i < |host| ensures 32 < host[i] < 127 && host[i] != 92 {
      assert HostByte(host[i]);
    }
  }

  /** No address is read from 512 bytes or more, from text with a blank, a control byte, a byte beyond
      ASCII or a backslash, or from text that begins with neither `http://` nor `https://`. */
  lemma NoAddress(s: Text)
    requires || |s| >= 512 || (exists i :: 0 <= i < |s| && (s[i] <= 32 || s[i] >= 127 || s[i] == 92))
             || !([104, 116, 116, 112, 58, 47, 47] <= s || [104, 116, 116, 112, 115, 58, 47, 47] <= s)
    ensures Parse(s) == None
  {
    assert Ascii("http://") == [104, 116, 116, 112, 58, 47, 47];
    assert Ascii("https://") == [104, 116, 116, 112, 115, 58, 47, 47];
  }

  /** References that are no path: an address stands for itself, `//` keeps only the scheme of the base, and
      any other colon is refused. */
  lemma OtherReferences(base: Text, ref: Text)
    requires Parse(base).Some?
    ensures [104, 116, 116, 112, 58, 47, 47] <= ref || [104, 116, 116, 112, 115, 58, 47, 47] <= ref ==>
              Resolve(base, ref) == if Parse(ref).Some? then Some(ref) else None
    ensures 58 in ref && !([104, 116, 116, 112, 58, 47, 47] <= ref || [104, 116, 116, 112, 115, 58, 47, 47] <= ref) ==>
              Resolve(base, ref) == None
    ensures 58 !in ref && [47, 47] <= ref ==>
              var scheme := if Parse(base).value.tls then [104, 116, 116, 112, 115, 58] else [104, 116, 116, 112, 58];
              var t := scheme + ref;
              Resolve(base, ref) == if Parse(t).Some? then Some(t) else None
  {
    hide Parse;
    assert Ascii("http://") == [104, 116, 116, 112, 58, 47, 47];
    assert Ascii("https://") == [104, 116, 116, 112, 115, 58, 47, 47];
    if 58 !in ref && [47, 47] <= ref {
      assert ref == [47, 47] + ref[2..] && ref[0] == 47;
      assert Scheme(false)[0] == 104 && Scheme(true)[0] == 104;
      var tls := Parse(base).value.tls;
      if tls {
        assert [104, 116, 116, 112, 115, 58] + ref == Scheme(tls) + ref[2..];
      } else {
        assert [104, 116, 116, 112, 58] + ref == Scheme(tls) + ref[2..];
      }
    }
  }
}
