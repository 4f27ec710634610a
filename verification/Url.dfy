/** The browser's URLs: what one consists of, and the path a reference leads to. */
module Url {
  import opened Bytes
  import opened Common
  import opened Decimals

  const LIMIT: nat := 512

  const SLASH: Byte := 47
  const COLON: Byte := 58
  const QUERY: Byte := 63
  const HASH: Byte := 35
  const DOT: Byte := 46

  type Text = seq<Byte>

  datatype Address = Address(host: Text, path: Text, port: nat, tls: bool)

  /** The length of the longest prefix without any of the bytes in `stops`. */
  function Until(s: Text, stops: set<Byte>): (n: nat)
    ensures n <= |s| && (forall i :: 0 <= i < n ==> s[i] !in stops) && (n < |s| ==> s[n] in stops)
  {
    if s == [] || s[0] in stops then 0 else 1 + Until(s[1..], stops)
  }

  /** A prefix without stops that ends where one stands is that prefix. */
  lemma {:induction false} UntilIs(s: Text, stops: set<Byte>, n: nat)
    requires n <= |s| && (forall i :: 0 <= i < n ==> s[i] !in stops) && (n < |s| ==> s[n] in stops)
    ensures Until(s, stops) == n
  {
    if n > 0 {
      UntilIs(s[1..], stops, n - 1);
    }
  }

  // ---- Addresses ------------------------------------------------------------------------

  predicate Legal(s: Text) {
    forall i :: 0 <= i < |s| ==> 32 < s[i] < 127 && s[i] != 92
  }

  predicate HostByte(c: Byte) {
    97 <= c <= 122 || 65 <= c <= 90 || IsDigit(c) || c == 45 || c == DOT
  }

  predicate HostOk(h: Text) {
    0 < |h| <= 253 && h[0] != DOT && h[|h| - 1] != DOT && forall i :: 0 <= i < |h| ==> HostByte(h[i])
  }

  function Ends(): set<Byte> { {SLASH, QUERY, HASH} }

  /** The part of the text after the host: an optional port, then the path. */
  function AfterHost(s: Text, host: Text, tls: bool): Option<Address> {
    if s != [] && s[0] == COLON then
      var d := s[1..][..DigitsLen(s[1..])];
      var rest := s[1..][DigitsLen(s[1..])..];
      if |d| > 5 || Value(d) > 65535 || Value(d) == 0 || (rest != [] && rest[0] !in Ends()) then None
      else Some(Address(host, PathOf(rest), Value(d), tls))
    else Some(Address(host, PathOf(s), if tls then 443 else 80, tls))
  }

  function PathOf(s: Text): Text {
    (if s != [] && s[0] == SLASH then [] else [SLASH]) + s[..Until(s, {HASH})]
  }

  function AfterScheme(s: Text, tls: bool): Option<Address> {
    var host := s[..Until(s, Ends() + {COLON})];
    if !HostOk(host) then None else AfterHost(s[|host|..], LowerAll(host), tls)
  }

  function Scheme(tls: bool): Text { if tls then Ascii("https://") else Ascii("http://") }

  /** `web_url_parse`. */
  function Parse(s: Text): Option<Address> {
    if |s| >= LIMIT || !Legal(s) then None
    else if Scheme(true) <= s then AfterScheme(s[8..], true)
    else if Scheme(false) <= s then AfterScheme(s[7..], false)
    else None
  }

  // ---- Dot segments ---------------------------------------------------------------------

  predicate Plain(seg: Text) {
    seg != [] && seg != [DOT] && seg != [DOT, DOT] && forall i :: 0 <= i < |seg| ==> seg[i] !in Ends()
  }

  /** The segments kept, each with its slash, behind the first slash. */
  function Folders(stack: seq<Text>): (s: Text)
    ensures |s| > 0 && s[|s| - 1] == SLASH
  {
    if stack == [] then [SLASH] else Folders(stack[..|stack| - 1]) + stack[|stack| - 1] + [SLASH]
  }

  /** A segment with a slash behind it: it goes on the stack, takes one off, or does nothing. */
  function Push(stack: seq<Text>, seg: Text): seq<Text> {
    if seg == [DOT, DOT] then if stack == [] then [] else stack[..|stack| - 1]
    else if seg == [] || seg == [DOT] then stack
    else stack + [seg]
  }

  /** The path without dot segments, `s` being what is left of it up to the query or fragment. */
  function Resolved(stack: seq<Text>, s: Text): (r: Text)
    decreases |s|
  {
    var n := Until(s, Ends());
    var seg := s[..n];
    if n < |s| && s[n] == SLASH then Resolved(Push(stack, seg), s[n + 1..])
    else if Plain(seg) then Folders(stack) + seg
    else Folders(Push(stack, seg))
  }

  /** A path that is in normal form: plain segments, each but the last with a slash behind it. */
  ghost predicate Normal(p: Text) {
    exists stack: seq<Text>, last: Text :: IsNormal(p, stack, last)
  }

  predicate IsNormal(p: Text, stack: seq<Text>, last: Text) {
    (forall i :: 0 <= i < |stack| ==> Plain(stack[i])) && (last == [] || Plain(last)) && p == Folders(stack) + last
  }

  /** Every path resolves to one in normal form: no dot segment is left, no empty one before the last,
      and nothing above the root. */
  lemma {:induction false} ResolvedIsNormal(stack: seq<Text>, s: Text)
    requires forall i :: 0 <= i < |stack| ==> Plain(stack[i])
    ensures Normal(Resolved(stack, s))
    decreases |s|
  {
    var n := Until(s, Ends());
    var seg := s[..n];
    if n < |s| && s[n] == SLASH {
      ResolvedIsNormal(Push(stack, seg), s[n + 1..]);
    } else if Plain(seg) {
      assert IsNormal(Resolved(stack, s), stack, seg);
    } else {
      assert IsNormal(Resolved(stack, s), Push(stack, seg), []);
    }
  }

  /** A path in normal form resolves to itself. */
  lemma {:induction false} NormalResolves(done: seq<Text>, stack: seq<Text>, last: Text)
    requires (forall i :: 0 <= i < |stack| ==> Plain(stack[i])) && (last == [] || Plain(last))
    ensures Resolved(done, Folders(stack)[1..] + last) == Folders(done + stack) + last
    decreases |stack|
  {
    hide Resolved, Plain, Folders;
    FoldersText(stack, last);
    if stack == [] {
      assert done + stack == done;
      LastResolves(done, last);
    } else {
      var seg, rest := stack[0], Folders(stack[1..])[1..] + last;
      assert Plain(seg);
      SegmentResolves(done, seg, rest);
      NormalResolves(done + [seg], stack[1..], last);
      assert done + [seg] + stack[1..] == done + stack;
    }
  }

  lemma FoldersText(stack: seq<Text>, last: Text)
    ensures stack == [] ==> Folders(stack)[1..] + last == last
    ensures stack != [] ==>
              Folders(stack)[1..] + last == stack[0] + ([SLASH] + (Folders(stack[1..])[1..] + last))
  {
    if stack != [] {
      FoldersFirst(stack);
      FoldersBegin(stack[1..]);
    }
  }

  lemma SegmentResolves(done: seq<Text>, seg: Text, rest: Text)
    requires Plain(seg)
    ensures Resolved(done, seg + ([SLASH] + rest)) == Resolved(done + [seg], rest)
  {
    var s := seg + ([SLASH] + rest);
    UntilIs(s, Ends(), |seg|);
    assert s[..|seg|] == seg && s[|seg| + 1..] == rest;
  }

  lemma LastResolves(done: seq<Text>, last: Text)
    requires last == [] || Plain(last)
    ensures Resolved(done, last) == Folders(done) + last
  {
    UntilIs(last, Ends(), |last|);
    assert last[..|last|] == last;
  }

  lemma {:induction false} FoldersFirst(stack: seq<Text>)
    requires stack != []
    ensures Folders(stack) == [SLASH] + stack[0] + Folders(stack[1..])
  {
    if |stack| > 1 {
      FoldersFirst(stack[..|stack| - 1]);
      assert stack[..|stack| - 1][1..] == stack[1..][..|stack[1..]| - 1];
    }
  }

  /** Resolving twice is resolving once. */
  lemma ResolvingTwice(s: Text)
    ensures var r := Resolved([], s); r != [] && r[0] == SLASH && Resolved([], r[1..]) == r
  {
    hide Resolved, Folders;
    ResolvedIsNormal([], s);
    var r := Resolved([], s);
    var stack: seq<Text>, last: Text :| IsNormal(r, stack, last);
    NormalResolves([], stack, last);
    FoldersBegin(stack);
    assert r[1..] == Folders(stack)[1..] + last && [] + stack == stack;
  }

  lemma {:induction false} FoldersBegin(stack: seq<Text>)
    ensures Folders(stack)[0] == SLASH
  {
    if stack != [] {
      FoldersBegin(stack[..|stack| - 1]);
    }
  }

  // ---- References -----------------------------------------------------------------------

  /** What a parsed address can be. */
  predicate Proper(u: Address) {
    && HostOk(u.host) && LowerAll(u.host) == u.host && 0 < u.port <= 65535
    && u.path != [] && u.path[0] == SLASH
  }

  function DefaultPort(tls: bool): nat { if tls then 443 else 80 }

  function PortText(u: Address): Text {
    if u.port == DefaultPort(u.tls) then [] else [COLON] + Num(u.port)
  }

  function Origin(u: Address): Text { Scheme(u.tls) + u.host + PortText(u) }

  function LastSlash(s: Text): (n: nat)
    ensures n <= |s| && (n > 0 ==> s[n - 1] == SLASH)
  {
    if s == [] then 0 else if s[|s| - 1] == SLASH then |s| else LastSlash(s[..|s| - 1])
  }

  /** The path a reference names before its dot segments go: its own, or behind the folder of the base,
      or, for a query or fragment alone, behind the path of the base. */
  function Merged(u: Address, ref: Text): Text {
    if ref != [] && ref[0] == SLASH then ref
    else
      var p := u.path[..Until(u.path, {QUERY})];
      (if ref != [] && ref[0] in {QUERY, HASH} then p else p[..LastSlash(p)]) + ref
  }

  function LeadingSlashes(s: Text): (n: nat)
    ensures n <= |s| && (forall i :: 0 <= i < n ==> s[i] == SLASH) && (n < |s| ==> s[n] != SLASH)
  {
    if s == [] || s[0] != SLASH then 0 else 1 + LeadingSlashes(s[1..])
  }

  /** A path without its dot segments, query and fragment kept. */
  function Cleaned(p: Text): Text {
    Resolved([], p[LeadingSlashes(p)..]) + p[Until(p, {QUERY, HASH})..]
  }

  /** Where a path reference leads. */
  function Target(u: Address, ref: Text): Text { Origin(u) + Cleaned(Merged(u, ref)) }

  lemma BehindHost(s: Text, host: Text, tls: bool)
    requires AfterHost(s, host, tls).Some?
    ensures var u := AfterHost(s, host, tls).value;
            && u.host == host && 0 < u.port <= 65535 && u.path != [] && u.path[0] == SLASH && HASH !in u.path
  {
    hide Value;
    var rest := if s != [] && s[0] == COLON then s[1..][DigitsLen(s[1..])..] else s;
    PathBegins(rest);
  }

  lemma PathBegins(s: Text)
    ensures var p := PathOf(s); p != [] && p[0] == SLASH && HASH !in p
  {
  }

  /** Every address that parses is proper. */
  lemma ParsedIsProper(s: Text)
    ensures Parse(s).Some? ==> Proper(Parse(s).value)
  {
    hide AfterHost, HostOk, LowerAll, Legal;
    if Parse(s).Some? {
      var tls := Scheme(true) <= s;
      var rest := if tls then s[8..] else s[7..];
      var host := rest[..Until(rest, Ends() + {COLON})];
      assert AfterScheme(rest, tls) == Parse(s);
      LowerStays(host);
      BehindHost(rest[|host|..], LowerAll(host), tls);
    }
  }

  lemma LowerStays(h: Text)
    requires HostOk(h)
    ensures HostOk(LowerAll(h)) && LowerAll(LowerAll(h)) == LowerAll(h)
  {
    assert forall i :: 0 <= i < |h| ==> LowerAll(h)[i] == Lower(h[i]);
  }

  /** The text of an address is parsed to that address again. */
  lemma OriginParses(u: Address, p: Text)
    requires Proper(u) && p != [] && p[0] == SLASH
    requires |Origin(u) + p| < LIMIT && Legal(Origin(u) + p)
    ensures Parse(Origin(u) + p) == Some(Address(u.host, p[..Until(p, {HASH})], u.port, u.tls))
  {
    hide Legal, PathOf, HostOk, Until;
    var s, rest := Origin(u) + p, PortText(u) + p;
    SchemeIsFirst(u.tls, u.host + rest);
    assert s == Scheme(u.tls) + (u.host + rest);
    HostIsFound(u.host, rest);
    PortIsFound(u, p);
    assert (u.host + rest)[..|u.host|] == u.host && (u.host + rest)[|u.host|..] == rest;
    PathIsWhole(p);
  }

  lemma SchemeIsFirst(tls: bool, rest: Text)
    ensures var s := Scheme(tls) + rest;
            (Scheme(true) <= s <==> tls) && Scheme(tls) <= s && s[if tls then 8 else 7..] == rest
  {
    assert Scheme(true)[4] == 115 && Scheme(false)[4] == 58;
  }

  lemma HostIsFound(host: Text, rest: Text)
    requires HostOk(host) && rest != [] && rest[0] in Ends() + {COLON}
    ensures Until(host + rest, Ends() + {COLON}) == |host|
  {
    UntilIs(host + rest, Ends() + {COLON}, |host|);
  }

  lemma PortIsFound(u: Address, p: Text)
    requires Proper(u) && p != [] && p[0] == SLASH
    ensures AfterHost(PortText(u) + p, u.host, u.tls) == Some(Address(u.host, PathOf(p), u.port, u.tls))
  {
    hide PathOf, HostOk;
    if u.port == DefaultPort(u.tls) {
      assert PortText(u) + p == p;
    } else {
      var d := Num(u.port);
      var s := (PortText(u) + p)[1..];
      assert s == d + p;
      DigitsLenIs(s, |d|);
      assert s[..|d|] == d && s[|d|..] == p;
      NumReadsBack(u.port);
      assert TenTo(5) == 100000;
      NumIsShort(u.port, 5, 65536);
    }
  }

  lemma PathIsWhole(p: Text)
    requires p != [] && p[0] == SLASH
    ensures PathOf(p) == p[..Until(p, {HASH})]
  {
  }

  /** A path reference stays with the scheme, host and port of its base, and its path is the normal
      form followed by the query. */
  lemma PathReferenceKeepsOrigin(base: Text, ref: Text)
    requires Parse(base).Some?
    requires |Target(Parse(base).value, ref)| < LIMIT && Legal(Target(Parse(base).value, ref))
    ensures var u := Parse(base).value;
            var r := Parse(Target(u, ref));
            && r.Some? && r.value.host == u.host && r.value.port == u.port && r.value.tls == u.tls
            && r.value.path == Cleaned(Merged(u, ref))[..Until(Cleaned(Merged(u, ref)), {HASH})]
            && exists n: nat :: n <= |r.value.path| && Normal(r.value.path[..n])
                 && (n < |r.value.path| ==> r.value.path[n] == QUERY)
  {
    hide Legal, Parse, Resolved, Merged, Origin;
    var u := Parse(base).value;
    var p := Merged(u, ref);
    ParsedIsProper(base);
    CleanedIsNormal(p);
    OriginParses(u, Cleaned(p));
  }

  lemma CleanedIsNormal(p: Text)
    ensures var c := Cleaned(p);
            && c != [] && c[0] == SLASH
            && exists n: nat :: n <= |c[..Until(c, {HASH})]| && Normal(c[..Until(c, {HASH})][..n])
                 && (n < |c[..Until(c, {HASH})]| ==> c[n] == QUERY)
  {
    hide Resolved, Normal;
    var r, rest := Resolved([], p[LeadingSlashes(p)..]), p[Until(p, {QUERY, HASH})..];
    ResolvedIsNormal([], p[LeadingSlashes(p)..]);
    ResolvingTwice(p[LeadingSlashes(p)..]);
    NormalHasNoHash(r);
    var c := Cleaned(p);
    assert c == r + rest;
    UntilBehind(r, rest);
    var n := |r|;
    assert c[..Until(c, {HASH})][..n] == r;
  }

  lemma NormalHasNoHash(r: Text)
    requires Normal(r)
    ensures HASH !in r && QUERY !in r
  {
    var stack: seq<Text>, last: Text :| IsNormal(r, stack, last);
    FoldersHaveNoHash(stack);
  }

  lemma {:induction false} FoldersHaveNoHash(stack: seq<Text>)
    requires forall i :: 0 <= i < |stack| ==> Plain(stack[i])
    ensures HASH !in Folders(stack) && QUERY !in Folders(stack)
  {
    if stack != [] {
      FoldersHaveNoHash(stack[..|stack| - 1]);
      assert Plain(stack[|stack| - 1]);
    }
  }

  lemma UntilBehind(r: Text, rest: Text)
    requires HASH !in r
    ensures Until(r + rest, {HASH}) == |r| + Until(rest, {HASH})
  {
    UntilIs(r + rest, {HASH}, |r| + Until(rest, {HASH}));
  }

  /** The query or fragment is no part of what is resolved. */
  lemma {:induction false} ResolvedStopsAtQuery(stack: seq<Text>, s: Text, rest: Text)
    requires QUERY !in s && HASH !in s && (rest == [] || rest[0] in {QUERY, HASH})
    ensures Resolved(stack, s + rest) == Resolved(stack, s)
    decreases |s|
  {
    var n := Until(s, Ends());
    UntilIs(s + rest, Ends(), n);
    assert (s + rest)[..n] == s[..n];
    if n < |s| {
      assert (s + rest)[n + 1..] == s[n + 1..] + rest;
      ResolvedStopsAtQuery(Push(stack, s[..n]), s[n + 1..], rest);
    }
  }

  /** Cleaning a path twice is cleaning it once. */
  lemma CleaningTwice(p: Text)
    ensures Cleaned(Cleaned(p)) == Cleaned(p)
  {
    hide Resolved, Normal;
    var s, rest := p[LeadingSlashes(p)..], p[Until(p, {QUERY, HASH})..];
    var r, c := Resolved([], s), Cleaned(p);
    ResolvedIsNormal([], s);
    ResolvingTwice(s);
    NormalHasNoHash(r);
    OneSlash(r, rest);
    UntilIs(c, {QUERY, HASH}, |r|);
    assert c[LeadingSlashes(c)..] == r[1..] + rest && c[|r|..] == rest;
    ResolvedStopsAtQuery([], r[1..], rest);
  }

  lemma OneSlash(r: Text, rest: Text)
    requires Normal(r) && (rest == [] || rest[0] in {QUERY, HASH})
    ensures LeadingSlashes(r + rest) == 1
  {
    var stack: seq<Text>, last: Text :| IsNormal(r, stack, last);
    FoldersBegin(stack);
    if stack != [] {
      FoldersFirst(stack);
      assert Plain(stack[0]) && r[1] == stack[0][0];
    }
    LeadingSlashesIs(r + rest, 1);
  }

  lemma {:induction false} LeadingSlashesIs(s: Text, n: nat)
    requires n <= |s| && (forall i :: 0 <= i < n ==> s[i] == SLASH) && (n < |s| ==> s[n] != SLASH)
    ensures LeadingSlashes(s) == n
  {
    if n > 0 {
      LeadingSlashesIs(s[1..], n - 1);
    }
  }

  /** `web_resolve`: the reference itself, the base's scheme with another host, or a path on the base's
      host; nothing when that is too long or holds a byte no address may hold. */
  function Resolve(base: Text, ref: Text): Option<Text> {
    if Parse(base).None? then None
    else
      var u := Parse(base).value;
      if Scheme(false) <= ref || Scheme(true) <= ref then
        if Parse(ref).Some? then Some(ref) else None
      else if COLON in ref then None
      else if [SLASH, SLASH] <= ref then
        var t := Scheme(u.tls) + ref[2..];
        if Parse(t).Some? then Some(t) else None
      else if |Merged(u, ref)| < LIMIT && |Target(u, ref)| < LIMIT && Legal(Target(u, ref)) then Some(Target(u, ref))
      else None
  }

  /** Whatever a reference resolves to is an address. */
  lemma ResolveGivesAddresses(base: Text, ref: Text)
    ensures Resolve(base, ref).Some? ==> Parse(Resolve(base, ref).value).Some?
  {
    hide Parse, Target, Merged, Legal;
    if Resolve(base, ref).Some? && Parse(base).Some? {
      var u := Parse(base).value;
      if |Target(u, ref)| < LIMIT && Legal(Target(u, ref)) {
        PathReferenceKeepsOrigin(base, ref);
      }
    }
  }

  // ---- The empty reference --------------------------------------------------------------

  /** An empty reference goes to the folder of the base. That is the path of the base, query apart, if
      and only if that path ends with a slash. */
  lemma EmptyMerges(u: Address)
    requires Proper(u)
    ensures var p := u.path[..Until(u.path, {QUERY})];
            p != [] && (Merged(u, []) == p <==> p[|p| - 1] == SLASH)
  {
    var p := u.path[..Until(u.path, {QUERY})];
    assert Merged(u, []) == p[..LastSlash(p)];
  }

  /** So an empty reference leads to the address of the base itself if and only if the path of the base
      is in normal form, ends with a slash and has no query. */
  lemma EmptyReferenceIsBase(base: Text)
    requires Parse(base).Some?
    ensures var u := Parse(base).value;
            u.path != [] &&
            (Cleaned(Merged(u, [])) == u.path <==>
               Cleaned(u.path) == u.path && QUERY !in u.path && u.path[|u.path| - 1] == SLASH)
  {
    hide Parse, Cleaned, Proper;
    var u := Parse(base).value;
    ParsedIsProper(base);
    ParsedHasNoHash(base);
    ProperPath(u);
    var p := u.path[..Until(u.path, {QUERY})];
    var folder := p[..LastSlash(p)];
    LastSlashCounts(p);
    assert Merged(u, []) == folder;
    if QUERY !in u.path && u.path[|u.path| - 1] == SLASH {
      assert folder == u.path;
    }
    if Cleaned(folder) == u.path {
      CleaningTwice(folder);
      CleanedFolder(folder);
    }
  }

  lemma ProperPath(u: Address)
    requires Proper(u)
    ensures u.path != [] && u.path[0] == SLASH
  {
  }

  lemma {:induction false} LastSlashCounts(p: Text)
    requires p != [] && p[0] == SLASH
    ensures LastSlash(p) > 0
  {
    if p[|p| - 1] != SLASH {
      LastSlashCounts(p[..|p| - 1]);
    }
  }

  lemma ParsedHasNoHash(base: Text)
    requires Parse(base).Some?
    ensures HASH !in Parse(base).value.path
  {
    hide AfterHost, HostOk, LowerAll, Legal;
    var tls := Scheme(true) <= base;
    var rest := if tls then base[8..] else base[7..];
    var host := rest[..Until(rest, Ends() + {COLON})];
    BehindHost(rest[|host|..], LowerAll(host), tls);
  }

  /** Cleaning a path that ends with a slash and has no query leaves such a path. */
  lemma CleanedFolder(p: Text)
    requires p != [] && p[|p| - 1] == SLASH && QUERY !in p && HASH !in p
    ensures var c := Cleaned(p); c != [] && c[|c| - 1] == SLASH && QUERY !in c
  {
    hide Resolved, Normal;
    var k := LeadingSlashes(p);
    UntilIs(p, {QUERY, HASH}, |p|);
    FolderResolves([], p[k..]);
    ResolvedIsNormal([], p[k..]);
    NormalHasNoHash(Resolved([], p[k..]));
  }

  lemma {:induction false} FolderResolves(stack: seq<Text>, s: Text)
    requires s != [] ==> s[|s| - 1] == SLASH
    requires QUERY !in s && HASH !in s
    ensures var r := Resolved(stack, s); r != [] && r[|r| - 1] == SLASH
    decreases |s|
  {
    var n := Until(s, Ends());
    if s != [] {
      FolderResolves(Push(stack, s[..n]), s[n + 1..]);
    }
  }

  /** From the base `http://a/b` the empty reference leads to `http://a/`. */
  lemma EmptyReferenceMissesBase()
    ensures var u := Address([97], [SLASH, 98], 80, false);
            && Parse(Origin(u) + u.path) == Some(u)
            && Resolve(Origin(u) + u.path, []) == Some(Origin(u) + [SLASH])
  {
    hide Parse, Resolved;
    var u := Address([97], [SLASH, 98], 80, false);
    assert Origin(u) == Ascii("http://") + [97];
    assert Legal(Origin(u) + u.path) && Legal(Origin(u) + [SLASH]);
    UntilIs(u.path, {HASH}, 2);
    assert u.path[..2] == u.path;
    OriginParses(u, u.path);
    UntilIs(u.path, {QUERY}, 2);
    assert Merged(u, []) == [SLASH] by {
      assert LastSlash(u.path[..1]) == 1;
      assert u.path[..2][..1] == u.path[..1] == [SLASH];
    }
    UntilIs([SLASH], {QUERY, HASH}, 1);
    LeadingSlashesIs([SLASH], 1);
    LastResolves([], []);
    assert Cleaned([SLASH]) == [SLASH];
  }
}
