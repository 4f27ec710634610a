/** The cursor loops of the browser's URL code. */
module UrlResolver {
  import opened Bytes
  import opened Common
  import opened Decimals
  import opened Url

  // ---- web_url_parse --------------------------------------------------------------------

  /** `web_url_parse`. */
  method WebUrlParse(s: Text) returns (r: Option<Address>)
    ensures r == Parse(s)
  {
    if |s| >= LIMIT {
      return None;
    }
    for i := 0 to |s|
      invariant Legal(s[..i])
    {
      if s[i] <= 32 || s[i] >= 127 || s[i] == 92 {
        return None;
      }
    }
    assert s[..|s|] == s;
    if Scheme(true) <= s {
      r := ParseHost(s[8..], true);
    } else if Scheme(false) <= s {
      r := ParseHost(s[7..], false);
    } else {
      r := None;
    }
  }

  method ParseHost(s: Text, tls: bool) returns (r: Option<Address>)
    requires |s| < LIMIT
    ensures r == AfterScheme(s, tls)
  {
    hide AfterHost, HostOk, LowerAll;
    var host, n := TakeHost(s);
    if host.None? {
      return None;
    }
    r := ParsePort(s[n..], host.value, tls);
  }

  /** The host: lower-cased as it is read, and refused at the first byte that does not belong. */
  method TakeHost(s: Text) returns (host: Option<Text>, n: nat)
    ensures var h := s[..Until(s, Ends() + {COLON})];
            if HostOk(h) then n == |h| && host == Some(LowerAll(h)) else host == None
  {
    ghost var end := Until(s, Ends() + {COLON});
    var h: Text := [];
    n := 0;
    while n < |s| && s[n] !in Ends() && s[n] != COLON
      invariant n <= end && n <= 253 && (forall i :: 0 <= i < n ==> HostByte(s[i]))
      invariant |h| == n && forall i :: 0 <= i < n ==> h[i] == Lower(s[i])
    {
      if !HostByte(s[n]) || n >= 253 {
        assert s[..end][n] == s[n];
        return None, n;
      }
      h := h + [Lower(s[n])];
      n := n + 1;
    }
    assert n == end;
    LoweredIs(s[..n], h);
    if n == 0 || h[0] == DOT || h[n - 1] == DOT {
      return None, n;
    }
    host := Some(h);
  }

  lemma LoweredIs(s: Text, h: Text)
    requires |h| == |s| && forall i :: 0 <= i < |s| ==> h[i] == Lower(s[i])
    ensures h == LowerAll(s)
  {
  }

  /** The port: digits up to the end of it, five at most. */
  method ParsePort(s: Text, host: Text, tls: bool) returns (r: Option<Address>)
    requires |s| < LIMIT
    ensures r == AfterHost(s, host, tls)
  {
    var port, rest := DefaultPort(tls), s;
    if s != [] && s[0] == COLON {
      var t := s[1..];
      ghost var all := DigitsLen(t);
      var n;
      port, n := 0, 0;
      while n < |t| && IsDigit(t[n])
        invariant n <= all && n <= 5 && port <= 65535 && port == Value(t[..n])
      {
        port := port * 10 + (t[n] as int - 48);
        n := n + 1;
        assert t[..n][..n - 1] == t[..n - 1];
        if n > 5 || port > 65535 {
          ValueGrows(t[..all], n);
          assert t[..all][..n] == t[..n];
          return None;
        }
      }
      if port == 0 || (n < |t| && t[n] !in Ends()) {
        return None;
      }
      rest := t[n..];
    }
    var path := ParsePath(rest);
    r := Some(Address(host, path, port, tls));
  }

  /** More digits, no smaller number. */
  lemma {:induction false} ValueGrows(d: Text, n: nat)
    requires n <= |d| && forall i :: 0 <= i < |d| ==> IsDigit(d[i])
    ensures Value(d[..n]) <= Value(d)
  {
    if n == |d| {
      assert d[..n] == d;
    } else {
      assert d[..|d| - 1][..n] == d[..n];
      ValueGrows(d[..|d| - 1], n);
    }
  }

  method ParsePath(s: Text) returns (path: Text)
    ensures path == PathOf(s)
  {
    path := if s == [] || s[0] != SLASH then [SLASH] else [];
    var i := 0;
    ghost var start := path;
    while i < |s| && s[i] != HASH
      invariant i <= Until(s, {HASH}) && path == start + s[..i]
    {
      path := path + [s[i]];
      i := i + 1;
    }
  }

  // ---- web_resolve ----------------------------------------------------------------------

  /** `..` in the loop of `web_resolve`: back to behind the slash before the last segment. */
  method Pop(norm: array<Byte>, n: nat, ghost stack: seq<Text>) returns (m: nat)
    requires n <= norm.Length && norm[..n] == Folders(stack) && forall i :: 0 <= i < |stack| ==> Plain(stack[i])
    ensures m <= n && norm[..m] == Folders(Push(stack, [DOT, DOT]))
  {
    FoldersLength(stack);
    m := n;
    if n > 1 {
      ghost var below, seg := Folders(stack[..|stack| - 1]), stack[|stack| - 1];
      assert Plain(seg);
      assert norm[..n] == below + seg + [SLASH];
      assert forall i :: |below| <= i < n - 1 ==> norm[i] == norm[..n][i] == seg[i - |below|];
      assert norm[|below| - 1] == norm[..n][|below| - 1] == SLASH;
      m := m - 1;
      while m > 1 && norm[m - 1] != SLASH
        invariant |below| <= m < n
      {
        m := m - 1;
      }
      assert norm[..m] == norm[..n][..m];
    }
  }

  lemma FoldersLength(stack: seq<Text>)
    requires forall i :: 0 <= i < |stack| ==> Plain(stack[i])
    ensures |Folders(stack)| > 1 <==> stack != []
  {
    if stack != [] {
      assert Plain(stack[|stack| - 1]);
    }
  }

  /** What the loop of `web_resolve` has got to at index `i`: `whole` is the result it works towards. */
  ghost predicate Doing(path: Text, i: nat, done: Text, stack: seq<Text>, whole: Text) {
    && i <= |path| && (forall k :: 0 <= k < |stack| ==> Plain(stack[k]))
    && done == Folders(stack) && whole == Resolved(stack, path[i..])
  }

  predicate AtEnd(path: Text, i: nat) {
    i == |path| || (i < |path| && path[i] in {QUERY, HASH})
  }

  /** The buffer after a segment, before any slash behind it. */
  function Written(stack: seq<Text>, seg: Text): Text {
    if Plain(seg) then Folders(stack) + seg else Folders(Push(stack, seg))
  }

  /** How `Resolved` treats the segment of length `z` at the front. */
  lemma SegmentStep(stack: seq<Text>, s: Text, z: nat)
    requires z <= |s| && (forall k :: 0 <= k < z ==> s[k] !in Ends()) && (z < |s| ==> s[z] in Ends())
    ensures Resolved(stack, s) == if z < |s| && s[z] == SLASH then Resolved(Push(stack, s[..z]), s[z + 1..])
                                  else Written(stack, s[..z])
    ensures Plain(s[..z]) <==> s[..z] != [] && s[..z] != [DOT] && s[..z] != [DOT, DOT]
  {
    UntilIs(s, Ends(), z);
  }

  lemma PushedIsPlain(stack: seq<Text>, seg: Text)
    requires (forall k :: 0 <= k < |stack| ==> Plain(stack[k]))
             && (Plain(seg) || seg == [] || seg == [DOT] || seg == [DOT, DOT])
    ensures forall k :: 0 <= k < |Push(stack, seg)| ==> Plain(Push(stack, seg)[k])
    ensures Plain(seg) ==> Written(stack, seg) + [SLASH] == Folders(Push(stack, seg))
  {
  }

  lemma NothingLeft(stack: seq<Text>, path: Text, i: nat)
    requires AtEnd(path, i)
    ensures Resolved(stack, path[i..]) == Folders(stack)
  {
    assert Push(stack, []) == stack;
  }

  /** The segment `seg` taken into the buffer. */
  method Take(norm: array<Byte>, n: nat, seg: Text, ghost stack: seq<Text>) returns (m: nat)
    requires 0 < n && n + |seg| <= norm.Length && norm[..n] == Folders(stack)
    requires forall k :: 0 <= k < |stack| ==> Plain(stack[k])
    requires Plain(seg) || seg == [] || seg == [DOT] || seg == [DOT, DOT]
    modifies norm
    ensures 0 < m <= n + |seg| && norm[..m] == Written(stack, seg)
  {
    hide Folders;
    m := n;
    if seg == [DOT, DOT] {
      m := Pop(norm, n, stack);
    } else if seg != [DOT] && seg != [] {
      CopyInto(norm, n, seg);
      m := n + |seg|;
    }
    if m == 0 {
      FoldersBegin(Push(stack, seg));
    }
  }

  /** One round of it: the segment at `i`. */
  method Segment(path: Text, i: nat, norm: array<Byte>, n: nat, ghost stack: seq<Text>, ghost whole: Text)
    returns (ok: bool, i': nat, n': nat, ghost stack': seq<Text>)
    requires i < |path| < LIMIT && !AtEnd(path, i) && norm.Length == LIMIT && 0 < n <= i
    requires Doing(path, i, norm[..n], stack, whole)
    modifies norm
    ensures ok ==> i < i' <= |path| && 0 < n' <= i' && n' < LIMIT
    ensures ok ==> forall k :: i <= k < i' ==> path[k] !in {QUERY, HASH}
    ensures ok && !AtEnd(path, i') ==> Doing(path, i', norm[..n'], stack', whole)
    ensures ok && AtEnd(path, i') ==> norm[..n'] == whole
    ensures !ok ==> |whole| >= LIMIT - 1
  {
    hide Folders, Resolved, Plain, Push, Written;
    i', n', stack', ok := i, n, stack, true;
    while i' < |path| && path[i'] !in Ends()
      invariant i <= i' <= |path| && forall k :: i <= k < i' ==> path[k] !in Ends()
    {
      i' := i' + 1;
    }
    ghost var rest, z := path[i..], i' - i;
    var seg := path[i..i'];
    assert rest[..z] == seg;
    SegmentStep(stack, rest, z);
    PushedIsPlain(stack, seg);
    if seg != [DOT, DOT] && seg != [DOT] && seg != [] && n + |seg| + 1 >= LIMIT {
      WrittenLength(stack, seg);
      return false, i', n', stack';
    }
    n' := Take(norm, n, seg, stack);
    if i' < |path| && path[i'] == SLASH {
      if seg != [DOT, DOT] && seg != [DOT] && seg != [] {
        norm[n'] := SLASH;
        n' := n' + 1;
      } else {
        WrittenIsPushed(stack, seg);
      }
      stack' := Push(stack, seg);
      i' := i' + 1;
      assert rest[z + 1..] == path[i'..];
      if AtEnd(path, i') {
        NothingLeft(stack', path, i');
      }
    }
  }

  lemma WrittenLength(stack: seq<Text>, seg: Text)
    requires Plain(seg)
    ensures |Written(stack, seg)| == |Folders(stack)| + |seg|
  {
  }

  lemma WrittenIsPushed(stack: seq<Text>, seg: Text)
    requires !Plain(seg)
    ensures Written(stack, seg) == Folders(Push(stack, seg))
  {
  }

  /** The loop of `web_resolve` and the query behind it: the path without dot segments, unless it fills
      the buffer. */
  method DropDots(path: Text) returns (r: Option<Text>)
    requires path != [] && path[0] == SLASH && |path| < LIMIT
    ensures r.Some? ==> r.value == Cleaned(path) && |r.value| < LIMIT
    ensures r.None? ==> |Cleaned(path)| >= LIMIT - 1
  {
    hide Folders, Resolved, Plain;
    var norm := new Byte[LIMIT];
    norm[0] := SLASH;
    var i, n := 0, 1;
    while i < |path| && path[i] == SLASH
      invariant i <= |path| && forall k :: 0 <= k < i ==> path[k] == SLASH
    {
      i := i + 1;
    }
    LeadingSlashesIs(path, i);
    ghost var whole, stack, first := Resolved([], path[i..]), [], i;
    NoFolders();
    if AtEnd(path, i) {
      NothingLeft([], path, i);
    }
    while i < |path| && path[i] !in {QUERY, HASH}
      invariant first <= i <= |path| && 0 < n <= i && n < LIMIT
      invariant forall k :: 0 <= k < i ==> path[k] !in {QUERY, HASH}
      invariant if AtEnd(path, i) then norm[..n] == whole else Doing(path, i, norm[..n], stack, whole)
      decreases |path| - i
    {
      var ok;
      ghost var b := i;
      ok, i, n, stack := Segment(path, i, norm, n, stack, whole);
      if !ok {
        return None;
      }
    }
    UntilIs(path, {QUERY, HASH}, i);
    if n + |path[i..]| >= LIMIT {
      return None;
    }
    r := Some(norm[..n] + path[i..]);
  }

  lemma NoFolders()
    ensures Folders([]) == [SLASH]
  {
  }

  /** A path reference: the origin of the base, and the path cleaned. */
  method ResolvePath(u: Address, ref: Text) returns (r: Option<Text>)
    requires Proper(u)
    ensures r == if |Merged(u, ref)| < LIMIT && |Target(u, ref)| < LIMIT && Legal(Target(u, ref))
                 then Some(Target(u, ref)) else None
  {
    hide Cleaned, HostOk, Legal, LowerAll;
    var origin := Scheme(u.tls) + u.host;
    if u.port != DefaultPort(u.tls) {
      origin := origin + [COLON] + Num(u.port);
    }
    var path := ref;
    if ref == [] || ref[0] != SLASH {
      path := u.path[..Until(u.path, {QUERY})];
      if ref == [] || ref[0] !in {QUERY, HASH} {
        path := path[..LastSlash(path)];
      }
      path := path + ref;
    }
    OriginIs(u, origin);
    MergedStarts(u, ref);
    assert path == Merged(u, ref);
    if |path| >= LIMIT {
      return None;
    }
    var norm := DropDots(path);
    if norm.None? || |origin| + |norm.value| >= LIMIT {
      return None;
    }
    var check := WebUrlParse(origin + norm.value);
    TargetParses(u, ref);
    r := if check.Some? then Some(origin + norm.value) else None;
  }

  lemma OriginIs(u: Address, origin: Text)
    requires Proper(u)
    requires origin == if u.port != DefaultPort(u.tls) then Scheme(u.tls) + u.host + [COLON] + Num(u.port)
                       else Scheme(u.tls) + u.host
    ensures origin == Origin(u) && |origin| >= 8
  {
  }

  lemma MergedStarts(u: Address, ref: Text)
    requires Proper(u)
    ensures Merged(u, ref) != [] && Merged(u, ref)[0] == SLASH
  {
    var p := u.path[..Until(u.path, {QUERY})];
    LastSlashKeepsFirst(p);
  }

  lemma {:induction false} LastSlashKeepsFirst(p: Text)
    requires p != [] && p[0] == SLASH
    ensures LastSlash(p) > 0
  {
    if p[|p| - 1] != SLASH {
      LastSlashKeepsFirst(p[..|p| - 1]);
    }
  }

  lemma TargetParses(u: Address, ref: Text)
    requires Proper(u)
    ensures |Target(u, ref)| < LIMIT && Legal(Target(u, ref)) <==> Parse(Target(u, ref)).Some?
  {
    CleanedIsNormal(Merged(u, ref));
    if |Target(u, ref)| < LIMIT && Legal(Target(u, ref)) {
      OriginParses(u, Cleaned(Merged(u, ref)));
    }
  }

  /** `web_resolve`. */
  method WebResolve(base: Text, ref: Text) returns (r: Option<Text>)
    ensures r == Resolve(base, ref)
  {
    hide Parse, Target, Merged, Legal, Proper;
    var u := WebUrlParse(base);
    if u.None? {
      return None;
    }
    ParsedIsProper(base);
    if Scheme(false) <= ref || Scheme(true) <= ref {
      var check := WebUrlParse(ref);
      r := if check.Some? then Some(ref) else None;
    } else if COLON in ref {
      r := None;
    } else if [SLASH, SLASH] <= ref {
      var target := Scheme(u.value.tls) + ref[2..];
      var check := WebUrlParse(target);
      r := if check.Some? then Some(target) else None;
    } else {
      r := ResolvePath(u.value, ref);
    }
  }
}
