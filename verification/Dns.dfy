/** Domain names on the wire (sections 3.1 and 4.1.4 of RFC 1035): the query the browser sends, and
    its reader of possibly compressed names. */
module Dns {
  import opened Bytes
  import opened Common

  const DOT: Byte := 46
  const LABEL_MAX: nat := 63
  const NAME_MAX: nat := 253
  const HOPS: nat := 128
  const PACKET: nat := 512
  const HEADER: nat := 12

  // ---- Names as lists of labels ---------------------------------------------------------

  function Join(labels: seq<seq<Byte>>): seq<Byte> {
    if labels == [] then []
    else if |labels| == 1 then labels[0]
    else labels[0] + [DOT] + Join(labels[1..])
  }

  lemma {:induction false} JoinSnoc(labels: seq<seq<Byte>>, l: seq<Byte>)
    ensures Join(labels + [l]) == if labels == [] then l else Join(labels) + [DOT] + l
  {
    if labels == [] {
      assert labels + [l] == [l];
    } else {
      assert (labels + [l])[1..] == labels[1..] + [l];
      JoinSnoc(labels[1..], l);
    }
  }

  lemma {:induction false} JoinAppend(labels: seq<seq<Byte>>, more: seq<seq<Byte>>)
    ensures |Join(labels)| <= |Join(labels + more)|
  {
    if labels == [] {
    } else if |labels| == 1 {
      assert (labels + more)[1..] == more;
    } else {
      assert (labels + more)[1..] == labels[1..] + more;
      JoinAppend(labels[1..], more);
    }
  }

  predicate GoodLabels(labels: seq<seq<Byte>>) {
    forall l :: l in labels ==> 0 < |l| <= LABEL_MAX
  }

  function LowerLabels(labels: seq<seq<Byte>>): seq<seq<Byte>> {
    if labels == [] then [] else [LowerAll(labels[0])] + LowerLabels(labels[1..])
  }

  /** The labels between the dots; a final dot ends the last label. */
  function Labels(host: seq<Byte>): seq<seq<Byte>>
    decreases |host|
  {
    if host == [] then []
    else
      var i := Find(host, DOT);
      [host[..i]] + if i == |host| then [] else Labels(host[i + 1..])
  }

  lemma {:induction false} JoinLabels(host: seq<Byte>)
    requires host != [] ==> host[|host| - 1] != DOT
    ensures Join(Labels(host)) == host
    decreases |host|
  {
    hide Join, Labels, Find;
    LabelsStep(host);
    if host == [] {
      JoinNone();
    } else {
      var i := Find(host, DOT);
      if i == |host| {
        OnlyLabel(host);
      } else {
        DotInside(host, i);
        LabelsStep(host[i + 1..]);
        JoinLabels(host[i + 1..]);
        JoinCons(host[..i], Labels(host[i + 1..]));
      }
    }
  }

  lemma OnlyLabel(host: seq<Byte>)
    ensures host[..|host|] == host && [host] + [] == [host] && Join([host]) == host
  {
  }

  lemma DotInside(host: seq<Byte>, i: nat)
    requires i < |host| && host[i] == DOT && host[|host| - 1] != DOT
    ensures host[i + 1..] != [] && host[i + 1..][|host[i + 1..]| - 1] != DOT
    ensures host == host[..i] + [DOT] + host[i + 1..]
  {
  }

  lemma LabelsStep(host: seq<Byte>)
    ensures host == [] ==> Labels(host) == []
    ensures host != [] ==> var i := Find(host, DOT);
              Labels(host) == [host[..i]] + (if i == |host| then [] else Labels(host[i + 1..]))
  {
  }

  lemma JoinNone()
    ensures Join([]) == []
  {
  }

  lemma JoinCons(l: seq<Byte>, labels: seq<seq<Byte>>)
    ensures Join([l] + labels) == if labels == [] then l else l + [DOT] + Join(labels)
  {
    assert ([l] + labels)[1..] == labels;
  }

  // ---- The wire form --------------------------------------------------------------------

  function Wire(labels: seq<seq<Byte>>): seq<Byte>
    requires GoodLabels(labels)
  {
    if labels == [] then [0] else [|labels[0]|] + labels[0] + Wire(labels[1..])
  }

  /** Where a compression pointer leads: the low 14 bits of its two bytes. */
  function Target(hi: Byte, lo: Byte): nat
    requires hi >= 192
  {
    (hi as int - 192) * 256 + lo as int
  }

  /** The labels of the name at `pos`, at most `hops` labels and pointers, in lower case. */
  function ReadLabels(p: seq<Byte>, pos: nat, hops: nat): Option<seq<seq<Byte>>>
    decreases hops
  {
    if pos >= |p| || hops == 0 then None
    else
      var z := p[pos];
      if z == 0 then Some([])
      else if z >= 192 then
        if pos + 1 >= |p| || Target(z, p[pos + 1]) >= |p| then None
        else ReadLabels(p, Target(z, p[pos + 1]), hops - 1)
      else if z > LABEL_MAX || pos + 1 + z > |p| then None
      else match ReadLabels(p, pos + 1 + z, hops - 1)
           case None => None
           case Some(more) => Some([LowerAll(p[pos + 1..pos + 1 + z])] + more)
  }

  /** Where the name at `pos` ends in place: behind its zero byte or its first pointer. */
  function Behind(p: seq<Byte>, pos: nat): nat
    decreases |p| - pos
  {
    if pos >= |p| then pos
    else if p[pos] == 0 then pos + 1
    else if p[pos] >= 192 then pos + 2
    else Behind(p, pos + 1 + p[pos])
  }

  datatype Name = NoName | Name(text: seq<Byte>, next: nat)

  /** The name a reader should get at `pos`. */
  function NameAt(p: seq<Byte>, pos: nat): Name {
    match ReadLabels(p, pos, HOPS)
    case None => NoName
    case Some(labels) => if |Join(labels)| > NAME_MAX then NoName else Name(Join(labels), Behind(p, pos))
  }

  ghost predicate Prefixed(whole: Option<seq<seq<Byte>>>, done: seq<seq<Byte>>, rest: Option<seq<seq<Byte>>>) {
    match rest
    case None => whole == None
    case Some(more) => whole == Some(done + more)
  }

  /** What one step of the walk tells about the whole name. */
  lemma WalkStep(p: seq<Byte>, at: nat, pos: nat, budget: nat, done: seq<seq<Byte>>)
    requires Prefixed(ReadLabels(p, at, HOPS), done, ReadLabels(p, pos, budget))
    ensures pos >= |p| || budget == 0 ==> NameAt(p, at) == NoName
    ensures pos < |p| && budget > 0 && p[pos] == 0 && |Join(done)| <= NAME_MAX ==>
              NameAt(p, at) == Name(Join(done), Behind(p, at)) && Behind(p, pos) == pos + 1
    ensures pos < |p| && budget > 0 && p[pos] >= 192 ==>
              Behind(p, pos) == pos + 2
              && if pos + 1 < |p| && Target(p[pos], p[pos + 1]) < |p|
                 then Prefixed(ReadLabels(p, at, HOPS), done, ReadLabels(p, Target(p[pos], p[pos + 1]), budget - 1))
                 else NameAt(p, at) == NoName
    ensures pos < |p| && budget > 0 && 0 < p[pos] < 192 && (p[pos] > LABEL_MAX || pos + 1 + p[pos] > |p|) ==>
              NameAt(p, at) == NoName
    ensures pos < |p| && 0 < p[pos] <= LABEL_MAX ==> Behind(p, pos) == Behind(p, pos + 1 + p[pos])
  {
    assert done + [] == done;
  }

  /** `web_dns_name`: pointers may lead anywhere, also in circles; the hop count ends the walk. */
  method DnsName(p: seq<Byte>, at: nat) returns (r: Name)
    ensures r == NameAt(p, at)
    ensures r.Name? ==> |r.text| <= NAME_MAX
  {
    hide ReadLabels, Behind, Join, NameAt, Prefixed, LowerAll;
    var pos: nat, out: seq<Byte>, ret: nat, hops: nat := at, [], 0, 0;
    ghost var done: seq<seq<Byte>> := [];
    NothingRead(ReadLabels(p, at, HOPS));
    EmptyJoin();
    while pos < |p| && hops < HOPS
      invariant hops <= HOPS && out == Join(done) && |out| <= NAME_MAX
      invariant done != [] <==> out != []
      invariant Prefixed(ReadLabels(p, at, HOPS), done, ReadLabels(p, pos, HOPS - hops))
      invariant if ret == 0 then Behind(p, at) == Behind(p, pos) else ret == Behind(p, at)
      decreases HOPS - hops
    {
      WalkStep(p, at, pos, HOPS - hops, done);
      hops := hops + 1;
      var z := p[pos];
      pos := pos + 1;
      if z == 0 {
        return Name(out, if ret != 0 then ret else pos);
      }
      if z >= 192 {
        if pos >= |p| {
          return NoName;
        }
        var target := Target(z, p[pos]);
        if ret == 0 {
          ret := pos + 1;
        }
        if target >= |p| {
          return NoName;
        }
        pos := target;
      } else {
        if z > LABEL_MAX || pos + z > |p| {
          return NoName;
        }
        var l := LowerAll(p[pos..pos + z]);
        LabelStep(p, at, pos - 1, hops, done, l);
        if |out| + z + 1 > NAME_MAX {
          return NoName;
        }
        out := (if out != [] then out + [DOT] else out) + l;
        done := done + [l];
        pos := pos + z;
      }
    }
    WalkStep(p, at, pos, HOPS - hops, done);
    r := NoName;
  }

  lemma EmptyJoin()
    ensures Join([]) == []
  {
  }

  lemma NothingRead(whole: Option<seq<seq<Byte>>>)
    ensures Prefixed(whole, [], whole)
  {
    if whole.Some? {
      assert [] + whole.value == whole.value;
    }
  }

  /** Reading one more label. */
  lemma LabelStep(p: seq<Byte>, at: nat, pos: nat, hops: nat, done: seq<seq<Byte>>, l: seq<Byte>)
    requires 0 < hops <= HOPS && pos < |p| && 0 < p[pos] <= LABEL_MAX && pos + 1 + p[pos] <= |p|
    requires l == LowerAll(p[pos + 1..pos + 1 + p[pos]])
    requires Prefixed(ReadLabels(p, at, HOPS), done, ReadLabels(p, pos, HOPS - hops + 1))
    ensures Prefixed(ReadLabels(p, at, HOPS), done + [l], ReadLabels(p, pos + 1 + p[pos], HOPS - hops))
    ensures Join(done + [l]) == if done == [] then l else Join(done) + [DOT] + l
    ensures |Join(done)| + |l| + 1 > NAME_MAX ==> NameAt(p, at) == NoName
  {
    JoinSnoc(done, l);
    var rest := ReadLabels(p, pos + 1 + p[pos], HOPS - hops);
    assert ReadLabels(p, pos, HOPS - hops + 1) == if rest.None? then None else Some([l] + rest.value);
    LabelMoves(ReadLabels(p, at, HOPS), done, l, rest);
  }

  lemma LabelMoves(whole: Option<seq<seq<Byte>>>, done: seq<seq<Byte>>, l: seq<Byte>, rest: Option<seq<seq<Byte>>>)
    requires Prefixed(whole, done, if rest.None? then None else Some([l] + rest.value))
    ensures Prefixed(whole, done + [l], rest)
    ensures whole.Some? ==> |Join(done + [l])| <= |Join(whole.value)|
  {
    if rest.Some? {
      assert done + ([l] + rest.value) == (done + [l]) + rest.value;
      JoinAppend(done + [l], rest.value);
    }
  }

  // ---- The query ------------------------------------------------------------------------

  /** The question behind the header: the name, type A, class IN. */
  function Question(labels: seq<seq<Byte>>): seq<Byte>
    requires GoodLabels(labels)
  {
    Wire(labels) + [0, 1, 0, 1]
  }

  function QueryHeader(id: nat): seq<Byte> {
    [id / 256 % 256, id % 256, 1, 0, 0, 1, 0, 0, 0, 0, 0, 0]
  }

  function WireSize(labels: seq<seq<Byte>>): nat {
    if labels == [] then 1 else 1 + |labels[0]| + WireSize(labels[1..])
  }

  /** The name, the question and the header fit the packet. */
  predicate Sendable(host: seq<Byte>) {
    GoodLabels(Labels(host)) && (Labels(host) == [] || HEADER + WireSize(Labels(host)) + 4 <= PACKET)
  }

  method FindDot(host: seq<Byte>, at: nat) returns (stop: nat)
    requires at <= |host|
    ensures at <= stop <= |host| && Find(host[at..], DOT) == stop - at
  {
    stop := at;
    while stop < |host| && host[stop] != DOT
      invariant at <= stop <= |host| && Find(host[at..], DOT) == stop - at + Find(host[stop..], DOT)
    {
      assert host[stop..][1..] == host[stop + 1..];
      stop := stop + 1;
    }
  }

  lemma NoLabels(s: seq<Byte>)
    ensures s == [] ==> Labels(s) == []
  {
  }

  /** The label from `at` to `stop` is the next one of the host. */
  lemma NextLabel(host: seq<Byte>, at: nat, stop: nat, done: seq<seq<Byte>>)
    requires at < |host| && at <= stop <= |host| && Find(host[at..], DOT) == stop - at
    requires Labels(host) == done + Labels(host[at..]) && GoodLabels(done)
    ensures var l, next := host[at..stop], if stop < |host| then stop + 1 else stop;
            && Labels(host) == (done + [l]) + Labels(host[next..])
            && WireSize(Labels(host)) >= |LabelBytes(done)| + 2 + |l|
            && l in Labels(host)
  {
    hide Labels, Find, WireSize, LabelBytes, GoodLabels;
    var rest, l := host[at..], host[at..stop];
    LabelsStep(rest);
    var next := if stop < |host| then stop + 1 else stop;
    assert rest[..stop - at] == l;
    assert stop < |host| ==> rest[stop - at + 1..] == host[next..];
    assert Labels(rest) == [l] + Labels(host[next..]) by {
      if stop == |host| {
        NoLabels(host[next..]);
      }
    }
    assert done + ([l] + Labels(host[next..])) == (done + [l]) + Labels(host[next..]);
    QuerySize(done, l, Labels(host[next..]));
    assert (done + [l])[|done|] == l;
  }

  lemma NotSendable(host: seq<Byte>, done: seq<seq<Byte>>, l: seq<Byte>)
    requires GoodLabels(done) && l in Labels(host) && WireSize(Labels(host)) >= |LabelBytes(done)| + 2 + |l|
    requires |l| < 1 || |l| > LABEL_MAX || HEADER + |LabelBytes(done)| + |l| + 6 > PACKET
    ensures !Sendable(host)
  {
  }

  lemma QueryComplete(host: seq<Byte>, done: seq<seq<Byte>>)
    requires GoodLabels(done) && Labels(host) == done && HEADER + |LabelBytes(done)| + 5 <= PACKET
    ensures Sendable(host) && Question(done) == LabelBytes(done) + [0, 0, 1, 0, 1]
  {
    WireIsBytes(done);
  }

  /** `web_dns_query`: the packet, or `None` for a host that cannot be asked for. */
  method DnsQuery(host: seq<Byte>, id: nat) returns (r: Option<seq<Byte>>)
    ensures r.Some? <==> Sendable(host)
    ensures r.Some? ==> r.value == QueryHeader(id) + Question(Labels(host)) && |r.value| <= PACKET
  {
    hide Labels, Find, LabelBytes, WireSize, Sendable, Question;
    var p := QueryHeader(id);
    var at := 0;
    ghost var done: seq<seq<Byte>> := [];
    NoLabelsYet(host);
    while at < |host|
      invariant at <= |host| && Labels(host) == done + Labels(host[at..])
      invariant GoodLabels(done) && p == QueryHeader(id) + LabelBytes(done) && |p| + 5 <= PACKET
    {
      var stop := FindDot(host, at);
      var l := host[at..stop];
      NextLabel(host, at, stop, done);
      if |l| < 1 || |l| > LABEL_MAX || |p| + |l| + 6 > PACKET {
        NotSendable(host, done, l);
        return None;
      }
      LabelBytesSnoc(done, l);
      p := p + [|l|] + l;
      done := done + [l];
      at := if stop < |host| then stop + 1 else stop;
    }
    NoLabelsLeft(host, at, done);
    QueryComplete(host, done);
    r := Some(p + [0, 0, 1, 0, 1]);
  }

  lemma NoLabelsYet(host: seq<Byte>)
    ensures Labels(host) == [] + Labels(host[0..]) && LabelBytes([]) == []
  {
    assert host[0..] == host && [] + Labels(host) == Labels(host);
  }

  lemma NoLabelsLeft(host: seq<Byte>, at: nat, done: seq<seq<Byte>>)
    requires at == |host|
    ensures done + Labels(host[at..]) == done
  {
    assert host[at..] == [] && done + [] == done;
  }

  function LabelBytes(labels: seq<seq<Byte>>): seq<Byte>
    requires GoodLabels(labels)
  {
    if labels == [] then [] else [|labels[0]|] + labels[0] + LabelBytes(labels[1..])
  }

  lemma {:induction false} LabelBytesSnoc(labels: seq<seq<Byte>>, l: seq<Byte>)
    requires GoodLabels(labels) && 0 < |l| <= LABEL_MAX
    ensures GoodLabels(labels + [l]) && LabelBytes(labels + [l]) == LabelBytes(labels) + [|l|] + l
  {
    if labels == [] {
      assert labels + [l] == [l] && [l][1..] == [];
    } else {
      assert (labels + [l])[1..] == labels[1..] + [l];
      LabelBytesSnoc(labels[1..], l);
    }
  }

  lemma {:induction false} WireIsBytes(labels: seq<seq<Byte>>)
    requires GoodLabels(labels)
    ensures Wire(labels) == LabelBytes(labels) + [0] && |Wire(labels)| == WireSize(labels)
  {
    if labels != [] {
      WireIsBytes(labels[1..]);
    }
  }

  lemma {:induction false} QuerySize(done: seq<seq<Byte>>, l: seq<Byte>, more: seq<seq<Byte>>)
    requires GoodLabels(done)
    ensures WireSize(done + [l] + more) >= |LabelBytes(done)| + 2 + |l|
  {
    if done == [] {
      assert (done + [l] + more)[1..] == more;
      assert WireSize(more) >= 1;
    } else {
      assert (done + [l] + more)[1..] == done[1..] + [l] + more;
      QuerySize(done[1..], l, more);
    }
  }

  // ---- Reading undoes asking ------------------------------------------------------------

  /** `w` stands at `pos` in the packet. */
  predicate StandsAt(p: seq<Byte>, pos: nat, w: seq<Byte>) {
    pos + |w| <= |p| && p[pos..pos + |w|] == w
  }

  lemma {:induction false} ReadsWire(p: seq<Byte>, pos: nat, labels: seq<seq<Byte>>, hops: nat)
    requires GoodLabels(labels) && StandsAt(p, pos, Wire(labels)) && |labels| < hops
    ensures ReadLabels(p, pos, hops) == Some(LowerLabels(labels))
    ensures Behind(p, pos) == pos + |Wire(labels)|
    decreases |labels|
  {
    hide StandsAt, Wire, ReadLabels, Behind;
    if labels == [] {
      ReadsEnd(p, pos, hops);
    } else {
      var l, more := labels[0], Wire(labels[1..]);
      assert l in labels;
      WireCons(labels);
      FirstLabel(p, pos, l, more);
      InPacket(p, pos + 1 + |l|, more);
      ReadsWire(p, pos + 1 + |l|, labels[1..], hops - 1);
      ReadsLabel(p, pos, l, LowerLabels(labels[1..]), hops);
    }
  }

  lemma ReadsEnd(p: seq<Byte>, pos: nat, hops: nat)
    requires StandsAt(p, pos, Wire([])) && hops > 0
    ensures ReadLabels(p, pos, hops) == Some([]) && Behind(p, pos) == pos + |Wire([])|
  {
    assert p[pos] == p[pos..pos + 1][0] == 0;
  }

  lemma ReadsLabel(p: seq<Byte>, pos: nat, l: seq<Byte>, more: seq<seq<Byte>>, hops: nat)
    requires hops > 0 && 0 < |l| <= LABEL_MAX && pos + 1 + |l| <= |p|
    requires p[pos] == |l| && p[pos + 1..pos + 1 + |l|] == l
    requires ReadLabels(p, pos + 1 + |l|, hops - 1) == Some(more)
    ensures ReadLabels(p, pos, hops) == Some([LowerAll(l)] + more)
    ensures Behind(p, pos) == Behind(p, pos + 1 + |l|)
  {
  }

  lemma WireCons(labels: seq<seq<Byte>>)
    requires GoodLabels(labels) && labels != []
    ensures Wire(labels) == [|labels[0]|] + labels[0] + Wire(labels[1..])
  {
  }

  lemma InPacket(p: seq<Byte>, pos: nat, w: seq<Byte>)
    requires StandsAt(p, pos, w)
    ensures pos + |w| <= |p|
  {
  }

  lemma FirstLabel(p: seq<Byte>, pos: nat, l: seq<Byte>, more: seq<Byte>)
    requires 0 < |l| <= LABEL_MAX && StandsAt(p, pos, [|l|] + l + more)
    ensures pos + 1 + |l| <= |p|
    ensures p[pos] == |l| && p[pos + 1..pos + 1 + |l|] == l && StandsAt(p, pos + 1 + |l|, more)
  {
    var w := [|l|] + l + more;
    assert w[0] == |l| && w[1..1 + |l|] == l && w[1 + |l|..1 + |l| + |more|] == more;
    assert p[pos..pos + |w|] == w;
    SliceOfSlice(p, pos, |w|, 1, |l|);
    SliceOfSlice(p, pos, |w|, 1 + |l|, |more|);
    assert p[pos] == p[pos..pos + |w|][0];
  }

  lemma {:induction false} JoinLower(labels: seq<seq<Byte>>)
    ensures Join(LowerLabels(labels)) == LowerAll(Join(labels))
  {
    if |labels| == 1 {
      assert LowerLabels(labels[1..]) == [];
    } else if labels != [] {
      JoinLower(labels[1..]);
      LowerJoin(labels[0] + [DOT], Join(labels[1..]));
      LowerJoin(labels[0], [DOT]);
      assert LowerAll([DOT]) == [DOT];
      JoinCons(LowerAll(labels[0]), LowerLabels(labels[1..]));
    }
  }

  lemma LowerJoin(a: seq<Byte>, b: seq<Byte>)
    ensures LowerAll(a + b) == LowerAll(a) + LowerAll(b)
  {
    var x, y := LowerAll(a + b), LowerAll(a) + LowerAll(b);
    assert forall i :: 0 <= i < |x| ==> x[i] == y[i];
  }

  lemma {:induction false} LabelsAreFew(labels: seq<seq<Byte>>)
    requires GoodLabels(labels)
    ensures 2 * |labels| <= |Join(labels)| + 1
    ensures labels != [] ==> WireSize(labels) == |Join(labels)| + 2
  {
    if |labels| == 1 {
      assert labels[0] in labels;
    } else if labels != [] {
      assert labels[0] in labels;
      LabelsAreFew(labels[1..]);
    }
  }

  lemma BehindHeader(header: seq<Byte>, w: seq<Byte>)
    requires |header| == HEADER
    ensures StandsAt(header + (w + [0, 1, 0, 1]), HEADER, w)
  {
    assert (header + (w + [0, 1, 0, 1]))[HEADER..HEADER + |w|] == w;
  }

  /** Asking for a host and reading the name back from the query gives the host in lower case, and
      ends right before the four bytes of type and class. */
  lemma QueryReadsBack(host: seq<Byte>, id: nat)
    requires |host| <= NAME_MAX && (host != [] ==> host[|host| - 1] != DOT) && GoodLabels(Labels(host))
    ensures Sendable(host)
    ensures var p := QueryHeader(id) + Question(Labels(host));
            NameAt(p, HEADER) == Name(LowerAll(host), |p| - 4)
  {
    hide Labels, Wire, LowerLabels, Join, Behind, ReadLabels, WireSize, StandsAt;
    var labels := Labels(host);
    var w := Wire(labels);
    var p := QueryHeader(id) + (w + [0, 1, 0, 1]);
    JoinLabels(host);
    LabelsAreFew(labels);
    WireIsBytes(labels);
    BehindHeader(QueryHeader(id), w);
    ReadsWire(p, HEADER, labels, HOPS);
    JoinLower(labels);
  }

  /** The bytes around the name: the number, the flag that asks for recursion, one question and nothing else,
      and behind the name an address of the internet. Sent are names of labels of 1 to 63 bytes, in a packet of
      at most 512 bytes. */
  lemma QueryAsks(host: seq<Byte>, id: nat)
    requires id < 65536 && Sendable(host)
    ensures var p := QueryHeader(id) + Question(Labels(host));
            && 256 * p[0] as int + p[1] as int == id && p[2..12] == [1, 0, 0, 1, 0, 0, 0, 0, 0, 0]
            && p[|p| - 4..] == [0, 1, 0, 1] && |p| <= 512
            && forall l :: l in Labels(host) ==> 1 <= |l| <= 63
  {
    hide Labels, Wire;
    var labels := Labels(host);
    assert |Wire(labels)| == WireSize(labels) by { WireIsBytes(labels); }
    var p := QueryHeader(id) + Question(labels);
    assert p[2..12] == QueryHeader(id)[2..12];
    assert p[|p| - 4..] == [0, 1, 0, 1];
    forall l | l in labels ensures 1 <= |l| <= 63 {
      var i :| 0 <= i < |labels| && labels[i] == l;
    }
  }

  /** A pointer reads as the name it leads to, and ends in place behind its two bytes: 192 and 12 lead to
      the name right behind the header, and the bytes h and l to position 256 * (h - 192) + l. */
  lemma PointerReads(p: seq<Byte>, at: nat, h: Byte, l: Byte, labels: seq<seq<Byte>>)
    requires h >= 192 && at + 2 <= |p| && p[at] == h && p[at + 1] == l
    requires GoodLabels(labels) && |labels| < 127 && StandsAt(p, 256 * (h as int - 192) + l as int, Wire(labels))
    requires |Join(labels)| <= 253
    ensures NameAt(p, at) == Name(LowerAll(Join(labels)), at + 2)
  {
    hide Wire, LowerLabels, Join, LowerAll;
    var t := 256 * (h as int - 192) + l as int;
    ReadsWire(p, t, labels, HOPS - 1);
    WireIsBytes(labels);
    JoinLower(labels);
    assert t < |p| by { SomeWire(labels); }
    assert ReadLabels(p, at, HOPS) == ReadLabels(p, t, HOPS - 1);
  }

  lemma SomeWire(labels: seq<seq<Byte>>)
    requires GoodLabels(labels)
    ensures |Wire(labels)| > 0
  {
  }

  /** A label in front of a pointer is put before the name the pointer leads to. */
  lemma LabelBeforePointer(p: seq<Byte>, at: nat, first: seq<Byte>, h: Byte, l: Byte, labels: seq<seq<Byte>>)
    requires h >= 192 && 0 < |first| <= 63 && StandsAt(p, at, [|first|] + first + [h, l])
    requires GoodLabels(labels) && labels != [] && |labels| < 126
    requires StandsAt(p, 256 * (h as int - 192) + l as int, Wire(labels)) && |first| + 1 + |Join(labels)| <= 253
    ensures NameAt(p, at) == Name(LowerAll(first) + [46] + LowerAll(Join(labels)), at + |first| + 3)
  {
    hide Wire, LowerLabels, Join, LowerAll;
    var t, q := 256 * (h as int - 192) + l as int, at + 1 + |first|;
    FirstLabel(p, at, first, [h, l]);
    assert p[q] == p[q..q + 2][0] == h && p[q + 1] == p[q..q + 2][1] == l;
    ReadsWire(p, t, labels, HOPS - 2);
    assert t < |p| by { SomeWire(labels); }
    assert ReadLabels(p, q, HOPS - 1) == ReadLabels(p, t, HOPS - 2);
    ReadsLabel(p, at, first, LowerLabels(labels), HOPS);
    JoinLower(labels);
    JoinCons(LowerAll(first), LowerLabels(labels));
    SomeLower(labels);
  }

  lemma SomeLower(labels: seq<seq<Byte>>)
    requires labels != []
    ensures LowerLabels(labels) != []
  {
  }

  /** Names of more than 253 bytes are refused, and so is a byte that is neither a length up to 63 nor a
      pointer. */
  lemma NamesRefused(p: seq<Byte>, at: nat, labels: seq<seq<Byte>>)
    ensures GoodLabels(labels) && StandsAt(p, at, Wire(labels)) && |labels| < 128 && |Join(labels)| > 253 ==>
              NameAt(p, at) == NoName
    ensures at < |p| && 64 <= p[at] < 192 ==> NameAt(p, at) == NoName
    ensures at >= |p| ==> NameAt(p, at) == NoName
  {
    hide Wire, LowerLabels, Join, LowerAll, StandsAt;
    if GoodLabels(labels) && StandsAt(p, at, Wire(labels)) && |labels| < 128 {
      ReadsWire(p, at, labels, HOPS);
      JoinLower(labels);
    }
  }

  /** Pointers that lead from one place to the next, and at last to the zero byte of the root name. */
  predicate Leads(p: seq<Byte>, places: seq<nat>) {
    && places != [] && places[|places| - 1] < |p| && p[places[|places| - 1]] == 0
    && forall i :: 0 <= i < |places| - 1 ==> PointsTo(p, places[i], places[i + 1])
  }

  predicate PointsTo(p: seq<Byte>, from: nat, to: nat) {
    from + 1 < |p| && p[from] >= 192 && to == 256 * (p[from] as int - 192) + p[from + 1] as int
  }

  /** The walk follows 127 pointers and gives up behind them. */
  lemma PointersAreFew(p: seq<Byte>, places: seq<nat>)
    requires Leads(p, places)
    ensures NameAt(p, places[0]).Name? <==> |places| <= 128
  {
    hide Leads;
    Follows(p, places, HOPS);
  }

  lemma {:induction false} Follows(p: seq<Byte>, places: seq<nat>, hops: nat)
    requires Leads(p, places)
    ensures ReadLabels(p, places[0], hops) == if |places| <= hops then Some([]) else None
    decreases hops
  {
    if hops > 0 && |places| > 1 {
      assert PointsTo(p, places[0], places[1]);
      forall i | 0 <= i < |places[1..]| - 1 ensures PointsTo(p, places[1..][i], places[1..][i + 1]) {
        assert PointsTo(p, places[i + 1], places[i + 2]);
      }
      assert places[1] < |p| by {
        if |places| > 2 {
          assert PointsTo(p, places[1], places[2]);
        }
      }
      Follows(p, places[1..], hops - 1);
    }
  }

  lemma {:induction false} CircleIsLeft(p: seq<Byte>, at: nat, hops: nat)
    requires PointsTo(p, at, at)
    ensures ReadLabels(p, at, hops) == None
  {
    if hops > 0 {
      CircleIsLeft(p, at, hops - 1);
    }
  }

  /** A pointer to itself is no name. */
  lemma CircleIsNoName(p: seq<Byte>, at: nat)
    requires PointsTo(p, at, at)
    ensures NameAt(p, at) == NoName
  {
    CircleIsLeft(p, at, HOPS);
  }
}
