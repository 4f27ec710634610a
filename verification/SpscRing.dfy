/** The single-producer, single-consumer byte ring. The class is the ring as one thread uses it; the
    state machine below interleaves the atomic steps of a producer and a consumer, each of which may
    read an old value of the other's counter. The counters are 64-bit and wrap. */
module SpscRing {
  import opened Bytes
  import opened Common
  import opened Powers

  const CAP: nat := 4096

  // ---- Wrapped counters -----------------------------------------------------------------

  function Wrap(x: nat): (r: nat)
    ensures r < U64
  {
    x % U64
  }

  /** The slot that position `x` of the byte stream has. */
  function Cell(x: nat): (r: nat)
    ensures r < CAP
  {
    x % CAP
  }

  /** `a - b` in 64 bits. */
  function Minus(a: nat, b: nat): nat
    requires a < U64 && b < U64
  {
    (a - b) % U64
  }

  /** The slot of a wrapped position, as the code computes it. */
  function Slot(at: nat, i: nat): (r: nat)
    ensures r < CAP
  {
    Cell(Wrap(at + i))
  }

  lemma CellOfWrap(x: nat)
    ensures Cell(Wrap(x)) == Cell(x)
  {
    var k := U64 / CAP;
    var q, r := x / U64, x % U64;
    assert x == CAP * (k * q) + r;
    assert r == CAP * (r / CAP) + r % CAP;
    ModUnique(x, k * q + r / CAP, r % CAP);
  }

  lemma ModUnique(x: nat, q: nat, r: nat)
    requires r < CAP && x == CAP * q + r
    ensures x % CAP == r
  {
  }

  lemma CellAdd(x: nat, i: nat)
    ensures Cell(Cell(x) + i) == Cell(x + i)
  {
  }

  lemma WrapAdd(x: nat, i: nat)
    ensures Wrap(Wrap(x) + i) == Wrap(x + i)
  {
  }

  /** The slot does not feel the wrap, because the capacity divides the counter range. */
  lemma SlotIsUnwrapped(x: nat, i: nat)
    ensures Slot(Wrap(x), i) == Cell(x + i)
  {
    WrapAdd(x, i);
    CellOfWrap(x + i);
  }

  /** Two counters at most the capacity apart have their true distance as wrapped difference. */
  lemma DistanceIsUnwrapped(a: nat, b: nat)
    requires b <= a <= b + CAP
    ensures Minus(Wrap(a), Wrap(b)) == a - b && Used(Wrap(a), Wrap(b)) == a - b
  {
  }

  function Used(tail: nat, head: nat): nat
    requires tail < U64 && head < U64
  {
    Minus(tail, head) % U32
  }

  /** Positions less than the capacity apart are different slots. */
  lemma CellsApart(x: nat, y: nat)
    requires x < y < x + CAP
    ensures Cell(x) != Cell(y)
  {
  }

  /** The slots from `out` on follow each other in memory if and only if they do not pass the end. */
  lemma OneSliceIff(out: nat, n: nat)
    requires out < CAP
    ensures OneSlice(out, n) <==> out + n <= CAP
  {
    if out + n > CAP {
      assert Cell(CAP) != CAP;
    }
  }

  /** The positions from `out` on are their own slots. */
  predicate OneSlice(out: nat, n: nat) {
    forall x :: out <= x < out + n ==> Cell(x) == x
  }

  // ---- The interleaved protocol ---------------------------------------------------------

  datatype Producer =
    | PushIdle
    | PushTail(src: seq<Byte>, tail: nat)
    | PushCopy(src: seq<Byte>, tail: nat, len: nat, i: nat)

  datatype Consumer = PopIdle | PopHead(want: nat, head: nat) | PopReady(want: nat, head: nat)

  /** `head`, `tail` and `data` are the ring; `sent` is every byte published, `got` every byte popped,
      `h` and `t` their counts without wrap, `hSeen` and `tSeen` the last values the other side read. */
  datatype State = State(head: nat, tail: nat, data: seq<Byte>, producer: Producer, consumer: Consumer,
                         sent: seq<Byte>, got: seq<Byte>, h: nat, t: nat, hSeen: nat, tSeen: nat)

  datatype Event =
    | PushStart(src: seq<Byte>)
    | PushLoadHead(h: nat)
    | PushByte
    | PushPublish
    | PopStart(want: nat)
    | PopLoadTail(t: nat)
    | PopAdvance

  /** What the event may be: a thread may read any value of the other's counter from the one it read
      last up to the present one. */
  predicate Enabled(s: State, e: Event) {
    match e
    case PushStart(src) => s.producer.PushIdle? && |src| < U32
    case PushLoadHead(h) => s.producer.PushTail? && s.hSeen <= h <= s.h && s.producer.tail < U64
    case PushByte => s.producer.PushCopy? && s.producer.i < s.producer.len <= |s.producer.src| && |s.data| == CAP
    case PushPublish => s.producer.PushCopy? && s.producer.i == s.producer.len <= |s.producer.src|
    case PopStart(want) => s.consumer.PopIdle? && want < U32
    case PopLoadTail(t) => s.consumer.PopHead? && s.tSeen <= t <= s.t && s.consumer.head < U64
    case PopAdvance => s.consumer.PopReady? && |s.data| == CAP
  }

  function Step(s: State, e: Event): State
    requires Enabled(s, e)
  {
    match e
    case PushStart(src) => s.(producer := PushTail(src, s.tail))
    case PushLoadHead(h) =>
      var free := (CAP - Used(s.producer.tail, Wrap(h))) % U32;
      s.(producer := PushCopy(s.producer.src, s.producer.tail, Min(|s.producer.src|, free), 0), hSeen := h)
    case PushByte =>
      var p := s.producer;
      s.(data := s.data[Slot(p.tail, p.i) := p.src[p.i]], producer := p.(i := p.i + 1))
    case PushPublish =>
      var p := s.producer;
      s.(tail := Wrap(p.tail + p.len), producer := PushIdle, sent := s.sent + p.src[..p.len], t := s.t + p.len)
    case PopStart(want) => s.(consumer := PopHead(want, s.head))
    case PopLoadTail(t) =>
      s.(consumer := PopReady(Min(s.consumer.want, Used(Wrap(t), s.consumer.head)), s.consumer.head), tSeen := t)
    case PopAdvance =>
      var c := s.consumer;
      s.(head := Wrap(c.head + c.want), consumer := PopIdle, h := s.h + c.want,
         got := s.got + Slots(s.data, c.head, c.want))
  }

  /** The popped bytes: `n` slots from the head on. */
  function Slots(data: seq<Byte>, head: nat, n: nat): (r: seq<Byte>)
    requires |data| == CAP
    ensures |r| == n && forall i :: 0 <= i < n ==> r[i] == data[Slot(head, i)]
  {
    seq(n, i requires 0 <= i => data[Slot(head, i)])
  }

  predicate Init(s: State) {
    && s.head == s.tail == s.h == s.t == s.hSeen == s.tSeen == 0
    && |s.data| == CAP && s.sent == s.got == []
    && s.producer.PushIdle? && s.consumer.PopIdle?
  }

  /** The position after the last byte written, published or not. */
  function Written(s: State): nat {
    s.t + if s.producer.PushCopy? then s.producer.i else 0
  }

  /** Every byte sent, popped or not, keeps its slot until the position a capacity further is written. */
  ghost predicate Stored(s: State)
    requires |s.data| == CAP && |s.sent| == s.t
  {
    forall x :: 0 <= x < s.t && Written(s) <= x + CAP ==> s.data[Cell(x)] == s.sent[x]
  }

  ghost predicate ProducerOk(s: State)
    requires |s.data| == CAP
  {
    match s.producer
    case PushIdle => true
    case PushTail(src, tail) => tail == s.tail
    case PushCopy(src, tail, len, i) =>
      && tail == s.tail && i <= len <= |src| && s.t + len <= s.hSeen + CAP
      && forall x :: s.t <= x < s.t + i ==> s.data[Cell(x)] == src[x - s.t]
  }

  ghost predicate ConsumerOk(s: State) {
    match s.consumer
    case PopIdle => true
    case PopHead(want, head) => head == s.head
    case PopReady(want, head) => head == s.head && s.h + want <= s.tSeen
  }

  ghost predicate Inv(s: State) {
    && s.head == Wrap(s.h) && s.tail == Wrap(s.t)
    && |s.data| == CAP && |s.sent| == s.t
    && s.hSeen <= s.h <= s.tSeen <= s.t <= s.hSeen + CAP
    && s.got == s.sent[..s.h]
    && Stored(s) && ProducerOk(s) && ConsumerOk(s)
  }

  lemma InitHoldsInv(s: State)
    requires Init(s)
    ensures Inv(s)
  {
  }

  lemma LoadHeadKeepsInv(s: State, h: nat)
    requires Inv(s) && Enabled(s, PushLoadHead(h))
    ensures Inv(Step(s, PushLoadHead(h)))
  {
    DistanceIsUnwrapped(s.t, h);
  }

  /** The producer writes only slots that hold no byte waiting to be popped. */
  lemma WritesOutside(s: State)
    requires Inv(s) && Enabled(s, PushByte)
    ensures forall x :: s.h <= x < s.t + s.producer.i ==> Cell(x) != Slot(s.producer.tail, s.producer.i)
  {
    hide Cell, Wrap, Slot, Minus, Used;
    var y := s.t + s.producer.i;
    SlotIsUnwrapped(s.t, s.producer.i);
    forall x | s.h <= x < y ensures Cell(x) != Cell(y) {
      CellsApart(x, y);
    }
  }

  lemma ByteKeepsInv(s: State)
    requires Inv(s) && Enabled(s, PushByte)
    ensures Inv(Step(s, PushByte))
  {
    hide Cell, Wrap, Slot, Minus, Used;
    WritesOutside(s);
    var y := s.t + s.producer.i;
    SlotIsUnwrapped(s.t, s.producer.i);
    forall x | 0 <= x < s.t && y + 1 <= x + CAP ensures Cell(x) != Cell(y) {
      CellsApart(x, y);
    }
  }

  lemma PublishKeepsInv(s: State)
    requires Inv(s) && Enabled(s, PushPublish)
    ensures Inv(Step(s, PushPublish))
  {
    hide Cell, Wrap, Slot, Minus, Used;
    var s' := Step(s, PushPublish);
    WrapAdd(s.t, s.producer.len);
    assert s'.sent[..s.h] == s.sent[..s.h];
    forall x | s'.h <= x < s'.t ensures s'.data[Cell(x)] == s'.sent[x] {
      if x < s.t {
        assert s.data[Cell(x)] == s.sent[x];
      }
    }
  }

  lemma LoadTailKeepsInv(s: State, t: nat)
    requires Inv(s) && Enabled(s, PopLoadTail(t))
    ensures Inv(Step(s, PopLoadTail(t)))
  {
    DistanceIsUnwrapped(t, s.h);
  }

  lemma AdvanceKeepsInv(s: State)
    requires Inv(s) && Enabled(s, PopAdvance)
    ensures Inv(Step(s, PopAdvance))
  {
    hide Cell, Wrap, Slot, Minus, Used;
    var n := s.consumer.want;
    var r := Slots(s.data, s.head, n);
    WrapAdd(s.h, n);
    forall i | 0 <= i < n ensures r[i] == s.sent[s.h + i] {
      SlotIsUnwrapped(s.h, i);
      assert s.data[Cell(s.h + i)] == s.sent[s.h + i];
    }
    assert s.sent[..s.h + n] == s.sent[..s.h] + r;
  }

  lemma StepKeepsInv(s: State, e: Event)
    requires Inv(s) && Enabled(s, e)
    ensures Inv(Step(s, e))
  {
    match e
    case PushStart(src) =>
    case PushLoadHead(h) => LoadHeadKeepsInv(s, h);
    case PushByte => ByteKeepsInv(s);
    case PushPublish => PublishKeepsInv(s);
    case PopStart(want) =>
    case PopLoadTail(t) => LoadTailKeepsInv(s, t);
    case PopAdvance => AdvanceKeepsInv(s);
  }

  ghost predicate Run(states: seq<State>, events: seq<Event>) {
    && |states| == |events| + 1 && Init(states[0])
    && forall i :: 0 <= i < |events| ==> Enabled(states[i], events[i]) && states[i + 1] == Step(states[i], events[i])
  }

  /** In every interleaving with stale reads: what was popped is, byte for byte and in order, what was
      pushed first; the rest waits in the slots from the head on; and the ring is never overfull. */
  lemma {:induction false} RingIsFifo(states: seq<State>, events: seq<Event>, n: nat)
    requires Run(states, events) && n < |states|
    ensures Inv(states[n])
    ensures var s := states[n];
            && s.got == s.sent[..s.h] && s.h <= s.t == |s.sent| && s.t - s.h <= CAP
            && Minus(s.tail, s.head) == s.t - s.h
            && forall i :: 0 <= i < s.t - s.h ==> s.data[Slot(s.head, i)] == s.sent[s.h + i]
  {
    hide Cell, Wrap, Slot, Minus, Used;
    if n == 0 {
      InitHoldsInv(states[0]);
    } else {
      RingIsFifo(states, events, n - 1);
      StepKeepsInv(states[n - 1], events[n - 1]);
    }
    var s := states[n];
    DistanceIsUnwrapped(s.t, s.h);
    forall i | 0 <= i < s.t - s.h ensures s.data[Slot(s.head, i)] == s.sent[s.h + i] {
      SlotIsUnwrapped(s.h, i);
    }
  }

  // ---- How long popped bytes can be read ------------------------------------------------

  lemma {:induction false} SentGrows(states: seq<State>, events: seq<Event>, n: nat, m: nat)
    requires Run(states, events) && n <= m < |states|
    ensures states[n].sent <= states[m].sent
  {
    if n < m {
      SentGrows(states, events, n, m - 1);
      assert states[m] == Step(states[m - 1], events[m - 1]);
    }
  }

  /** A popped byte can be read in its slot as long as the producer has not come round to it: until
      position `x + CAP` is written, whatever else happens. Then the slot holds the byte of that position. */
  lemma PoppedStays(states: seq<State>, events: seq<Event>, n: nat, m: nat, x: nat)
    requires Run(states, events) && n <= m < |states| && x < |states[n].got|
    ensures |states[m].data| == CAP && |states[m].sent| == states[m].t
    ensures states[m].producer.PushCopy? ==> states[m].producer.i <= |states[m].producer.src|
    ensures Written(states[m]) <= x + CAP ==> states[m].data[Cell(x)] == states[n].got[x]
    ensures x + CAP < Written(states[m]) <= x + 2 * CAP ==> states[m].data[Cell(x)] == ByteAt(states[m], x + CAP)
  {
    hide Cell, Wrap, Slot, Minus, Used;
    RingIsFifo(states, events, n);
    RingIsFifo(states, events, m);
    SentGrows(states, events, n, m);
    SameCell(x);
  }

  lemma SameCell(x: nat)
    ensures Cell(x + CAP) == Cell(x)
  {
  }

  /** The byte written at position `x`. */
  function ByteAt(s: State, x: nat): Byte
    requires |s.sent| == s.t && x < Written(s)
    requires s.producer.PushCopy? ==> s.producer.i <= |s.producer.src|
  {
    if x < s.t then s.sent[x] else s.producer.src[x - s.t]
  }

  // ---- Reading the depth from outside ---------------------------------------------------

  lemma {:induction false} CountersGrow(states: seq<State>, events: seq<Event>, i: nat, j: nat)
    requires Run(states, events) && i <= j < |states|
    ensures states[i].h <= states[j].h && states[i].t <= states[j].t
  {
    if i < j {
      CountersGrow(states, events, i, j - 1);
      RingIsFifo(states, events, j - 1);
      var s := states[j - 1];
      assert states[j] == Step(s, events[j - 1]);
    }
  }

  /** `depth` of a reader that loads the tail in one state of a run and the head in another, in either
      order; in between, fewer bytes pass than the counters can tell apart. What it computes is at most
      the capacity if and only if the two positions it saw are no further apart than a ring can be: with
      the tail loaded first, iff the head has not passed it since; with the head first, iff the tail has
      not run ahead by more than the capacity. Then it is the distance of those positions, and in a
      single state it is the number of bytes waiting. */
  lemma DepthOfTwoLoads(states: seq<State>, events: seq<Event>, i: nat, j: nat)
    requires Run(states, events) && i < |states| && j < |states|
    requires states[j].h - states[i].t < U64 - CAP && states[i].t - states[j].h < U64
    ensures states[i].tail < U64 && states[j].head < U64
    ensures var d, t, h := Minus(states[i].tail, states[j].head), states[i].t, states[j].h;
            && (d <= CAP <==> h <= t <= h + CAP) && (d <= CAP ==> d == t - h)
            && (i <= j ==> (d <= CAP <==> h <= t)) && (j <= i ==> (d <= CAP <==> t <= h + CAP))
            && (i == j ==> d == |states[i].sent| - |states[i].got|)
  {
    RingIsFifo(states, events, i);
    RingIsFifo(states, events, j);
    CountersGrow(states, events, if i < j then i else j, if i < j then j else i);
    WrappedDistance(states[i].t, states[j].h);
  }

  lemma WrappedDistance(t: nat, h: nat)
    requires h - t < U64 - CAP && t - h < U64
    ensures Minus(Wrap(t), Wrap(h)) == if h <= t then t - h else t - h + U64
  {
    var a, b := t / U64, h / U64;
    assert t == U64 * a + Wrap(t) && h == U64 * b + Wrap(h);
  }

  /** One byte goes through the ring after the tail is loaded and before the head is. */
  function OneByte(): seq<Event> {
    [PushStart([0]), PushLoadHead(0), PushByte, PushPublish, PopStart(1), PopLoadTail(1), PopAdvance]
  }

  /** The reader then computes the largest 64-bit number. */
  lemma DepthCanWrap(s: State) returns (states: seq<State>)
    requires Init(s)
    ensures Run(states, OneByte()) && states[0] == s
    ensures states[0].tail == 0 && states[7].head == 1 && Minus(0, 1) == U64 - 1
  {
    hide Slot, Slots;
    var e := OneByte();
    var s1 := Step(s, e[0]);
    var s2 := Step(s1, e[1]);
    assert s2.producer == PushCopy([0], 0, 1, 0);
    var s3 := Step(s2, e[2]);
    assert s3.producer == PushCopy([0], 0, 1, 1) && |s3.data| == CAP;
    var s4 := Step(s3, e[3]);
    assert s4.tail == 1 && s4.t == 1 && s4.head == 0 && s4.tSeen == 0;
    var s5 := Step(s4, e[4]);
    var s6 := Step(s5, e[5]);
    assert s6.consumer == PopReady(1, 0);
    states := [s, s1, s2, s3, s4, s5, s6, Step(s6, e[6])];
  }

  // ---- The ring as one thread uses it ---------------------------------------------------

  class Ring {
    var head: nat
    var tail: nat
    const data: array<Byte>
    ghost var popped: nat
    ghost var queue: seq<Byte>

    /** `queue` waits in the slots from the head on; `popped` bytes went before it. */
    ghost predicate Valid()
      reads this, data
    {
      && data.Length == CAP && |queue| <= CAP
      && head == Wrap(popped) && tail == Wrap(popped + |queue|)
      && forall k :: popped <= k < popped + |queue| ==> data[Cell(k)] == queue[k - popped]
    }

    constructor ()
      ensures Valid() && queue == [] && popped == 0 && fresh(data)
    {
      data := new Byte[CAP](_ => 0);
      head, tail := 0, 0;
      popped, queue := 0, [];
    }

    /** `depth`. */
    method Depth() returns (n: nat)
      requires Valid()
      ensures n == |queue|
    {
      DistanceIsUnwrapped(popped + |queue|, popped);
      n := Minus(tail, head);
    }

    /** `push`: as much of the source as there is room for. */
    method Push(src: seq<Byte>) returns (len: nat)
      requires Valid() && |src| < U32
      modifies this`tail, this`queue, data
      ensures Valid() && popped == old(popped)
      ensures len == Min(|src|, CAP - |old(queue)|) && queue == old(queue) + src[..len]
    {
      hide Cell, Wrap, Slot, Minus, Used;
      ghost var t, all := popped + |queue|, queue + src;
      DistanceIsUnwrapped(t, popped);
      var free := (CAP - Used(tail, head)) % U32;
      len := Min(|src|, free);
      for i := 0 to len
        modifies data
        invariant forall k :: popped <= k < t + i ==> data[Cell(k)] == all[k - popped]
      {
        SlotIsUnwrapped(t, i);
        forall k | popped <= k < t + i ensures Cell(k) != Cell(t + i) {
          CellsApart(k, t + i);
        }
        data[Slot(tail, i)] := src[i];
      }
      WrapAdd(t, len);
      tail := Wrap(tail + len);
      queue := queue + src[..len];
    }

    /** `pop`: the slot the popped bytes start at, and how many there are. */
    method Pop(want: nat) returns (out: nat, n: nat)
      requires Valid() && want < U32
      modifies this`head, this`queue, this`popped
      ensures Valid() && popped == old(popped) + n
      ensures n == Min(want, |old(queue)|) && queue == old(queue)[n..]
      ensures out == Cell(old(popped)) && forall i :: 0 <= i < n ==> data[Cell(out + i)] == old(queue)[i]
      ensures OneSlice(out, n) <==> out + n <= CAP
      ensures out + n <= CAP ==> data[out..out + n] == old(queue)[..n]
    {
      hide Cell, Wrap, Slot, Minus, Used, OneSlice;
      DistanceIsUnwrapped(popped + |queue|, popped);
      n := Min(want, Used(tail, head));
      out := Cell(head);
      CellOfWrap(popped);
      FirstBytes(out, n);
      OneSliceIff(out, n);
      WrapAdd(popped, n);
      head := Wrap(head + n);
      queue, popped := queue[n..], popped + n;
    }

    /** The first `n` waiting bytes stand from the slot of the first one on. */
    lemma FirstBytes(out: nat, n: nat)
      requires Valid() && out == Cell(popped) && n <= |queue|
      ensures forall i :: 0 <= i < n ==> data[Cell(out + i)] == queue[i]
      ensures out + n <= CAP ==> data[out..out + n] == queue[..n]
    {
      hide Cell, Wrap, Slot, Minus, Used, OneSlice;
      forall i | 0 <= i < n ensures data[Cell(out + i)] == queue[i] {
        CellAdd(popped, i);
        assert data[Cell(popped + i)] == queue[popped + i - popped];
      }
      OneSliceIff(out, n);
      if out + n <= CAP {
        SliceIs(out, n);
      }
    }

    lemma SliceIs(out: nat, n: nat)
      requires data.Length == CAP && OneSlice(out, n) && out + n <= CAP && n <= |queue|
      requires forall i :: 0 <= i < n ==> data[Cell(out + i)] == queue[i]
      ensures data[out..out + n] == queue[..n]
    {
      hide Cell;
      forall k | out <= k < out + n ensures data[k] == queue[k - out] {
        assert data[Cell(out + (k - out))] == queue[k - out];
      }
      SlicesEqual(data[..], queue, out, 0, n);
    }
  }

  lemma LastCell()
    ensures Cell(CAP - 1) == CAP - 1
  {
  }

  /** All but one slot used and given back, then two bytes: they are popped as the last slot and the
      first, which no pointer into the ring can hand over as one slice. */
  method PopPastTheEnd(filler: seq<Byte>, src: seq<Byte>) returns (out: nat, n: nat)
    requires |filler| == CAP - 1 && |src| == 2
    ensures out == CAP - 1 && n == 2 && !OneSlice(out, n)
  {
    hide Cell, Wrap, Slot, Minus, Used, OneSlice;
    OneSliceIff(CAP - 1, 2);
    LastCell();
    var ring := new Ring();
    var len := ring.Push(filler);
    out, n := ring.Pop(CAP - 1);
    len := ring.Push(src);
    out, n := ring.Pop(2);
  }
}
