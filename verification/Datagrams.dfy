/**
  A datagram socket: framed datagrams in the receive ring, written by the interrupt side
  while a receiving task may be anywhere between two of its byte reads.
 */
module Datagrams {
  import opened Words
  import opened Rings

  const HEADER := 8

  datatype Datagram = Datagram(srcIp: u32, srcPort: u16, data: seq<byte>)

  /** The stored header: source address, source port, data length, each least significant byte first. */
  function Header(srcIp: u32, srcPort: u16, count: u16): (h: seq<byte>)
    ensures |h| == HEADER
  {
    [ByteOf(srcIp, 0), ByteOf(srcIp, 1), ByteOf(srcIp, 2), ByteOf(srcIp, 3),
     srcPort % 256, srcPort / 256, count % 256, count / 256]
  }

  function HalfAt(h: seq<byte>, i: nat): u16
    requires i + 2 <= |h|
  {
    (h[i] as int) + 256 * (h[i + 1] as int)
  }

  lemma HeaderRoundTrip(srcIp: u32, srcPort: u16, count: u16)
    ensures var h := Header(srcIp, srcPort, count);
            WordAt(h, 0) == srcIp && HalfAt(h, 4) == srcPort && HalfAt(h, 6) == count
  {
    ByteOfRecombine(srcIp);
  }

  function Frame(d: Datagram): (f: seq<byte>)
    requires |d.data| < 65536
    ensures |f| == HEADER + |d.data|
  {
    Header(d.srcIp, d.srcPort, |d.data|) + d.data
  }

  /** What a receiver with room for `length` bytes gets of a datagram. */
  function Cut(d: Datagram, length: nat): Datagram {
    d.(data := if length < |d.data| then d.data[..length] else d.data)
  }

  // ----- the socket, step by step -----

  /** Where `socket_recvfrom` is: not running, in one of its two loops, or returned. */
  datatype Reader =
    | Idle
    | InHeader(from: nat, length: nat, got: seq<byte>)
    | InData(from: nat, length: nat, header: seq<byte>, i: nat, out: seq<byte>)
    | Done(result: Datagram)

  datatype Endpoint = Endpoint(ring: Ring, reader: Reader)

  predicate Shaped(e: Endpoint) {
    && |e.ring.buffer| == SIZE && e.ring.head < SIZE && e.ring.tail < SIZE
    && (e.reader.InHeader? ==> |e.reader.got| < HEADER)
    && (e.reader.InData? ==> |e.reader.header| == HEADER)
  }

  predicate Busy(e: Endpoint) {
    e.reader.InHeader? || e.reader.InData?
  }

  /** A call of `socket_recvfrom`; it waits (nothing changes) while the ring is empty. */
  function Receive(e: Endpoint, length: nat): (e': Endpoint)
    requires Shaped(e)
    ensures Shaped(e')
  {
    if Busy(e) || e.ring.len == 0 then e else e.(reader := InHeader(e.ring.tail, length, []))
  }

  /** The running call reads its next byte, or releases the space and returns. */
  function Continue(e: Endpoint): (e': Endpoint)
    requires Shaped(e)
    ensures Shaped(e')
  {
    match e.reader
    case InHeader(from, length, got) =>
      var got' := got + [Front(e.ring)];
      Endpoint(Advance(e.ring), if |got'| == HEADER then InData(from, length, got', 0, []) else InHeader(from, length, got'))
    case InData(from, length, header, i, out) =>
      var count := HalfAt(header, 6);
      if i < count then
        var out' := if i < length then out + [Front(e.ring)] else out;
        Endpoint(Advance(e.ring), InData(from, length, header, i + 1, out'))
      else
        Endpoint(e.ring.(len := Wrap(e.ring.len - (HEADER + count))), Done(Datagram(WordAt(header, 0), HalfAt(header, 4), out)))
    case _ => e
  }

  /** `socket_dispatch_udp` on this socket: all of the datagram, or nothing. */
  function Dispatch(e: Endpoint, d: Datagram): (e': Endpoint)
    requires Shaped(e) && |d.data| < 65536
    ensures Shaped(e')
  {
    e.(ring := Offer(e.ring, Frame(d)))
  }

  /** Steps left until the running call returns. */
  function Remaining(e: Endpoint): nat
    requires Shaped(e)
  {
    match e.reader
    case InHeader(_, _, got) => HEADER - |got| + 65537
    case InData(_, _, header, i, _) => if i < HalfAt(header, 6) then HalfAt(header, 6) - i + 1 else 1
    case _ => 0
  }

  /** The running call carried to its end without interruption. */
  function Finish(e: Endpoint): (e': Endpoint)
    requires Shaped(e)
    ensures Shaped(e') && !Busy(e')
    decreases Remaining(e)
  {
    if Busy(e) then Finish(Continue(e)) else e
  }

  // ----- the queue the ring stands for -----

  function Frames(q: seq<Datagram>): seq<byte>
    requires forall d :: d in q ==> |d.data| < 65536
  {
    if q == [] then [] else Frame(q[0]) + Frames(q[1..])
  }

  lemma {:induction false} FramesAppend(q: seq<Datagram>, d: Datagram)
    requires (forall x :: x in q ==> |x.data| < 65536) && |d.data| < 65536
    ensures Frames(q + [d]) == Frames(q) + Frame(d)
  {
    if q == [] {
      assert [d][1..] == [];
      assert Frames([d]) == Frame(d) + Frames([]);
    } else {
      assert (q + [d])[1..] == q[1..] + [d];
      FramesAppend(q[1..], d);
    }
  }

  /** Where the bytes held begin: at the tail, or where the running call began. */
  function Start(e: Endpoint): nat {
    match e.reader
    case InHeader(from, _, _) => from
    case InData(from, _, _, _, _) => from
    case _ => e.ring.tail
  }

  /** How many bytes the running call has read. */
  function Progress(e: Endpoint): nat {
    match e.reader
    case InHeader(_, _, got) => |got|
    case InData(_, _, _, i, _) => HEADER + i
    case _ => 0
  }

  /** What the running call has read so far, when `d` is the oldest datagram. */
  predicate ReadSoFar(reader: Reader, d: Datagram)
    requires |d.data| < 65536
  {
    match reader
    case InHeader(_, _, got) => |got| < HEADER && got == Frame(d)[..|got|]
    case InData(_, length, header, i, out) =>
      && header == Header(d.srcIp, d.srcPort, |d.data|)
      && i <= |d.data|
      && out == d.data[..if i < length then i else length]
    case _ => true
  }

  /** The endpoint stands for the queue `q`; a datagram being received is still in it. */
  predicate StandsFor(e: Endpoint, q: seq<Datagram>) {
    && Shaped(e)
    && (forall d :: d in q ==> |d.data| < 65536)
    && Holds(e.ring, Start(e))
    && Held(e.ring, Start(e)) == Frames(q)
    && (Busy(e) ==> q != [] && ReadSoFar(e.reader, q[0]) && e.ring.tail == At(Start(e), Progress(e)))
  }

  /** Whether the frame of `d` fits behind the queue. */
  predicate Admits(q: seq<Datagram>, d: Datagram)
    requires forall x :: x in q ==> |x.data| < 65536
  {
    |Frames(q)| + HEADER + |d.data| <= SIZE
  }

  lemma FrontBytes(e: Endpoint, q: seq<Datagram>, k: nat)
    requires StandsFor(e, q) && q != [] && k < HEADER + |q[0].data|
    ensures e.ring.len >= HEADER + |q[0].data|
    ensures Held(e.ring, Start(e))[k] == Frame(q[0])[k]
  {
  }

  /** An arrival is appended exactly when its frame fits; the running call is not disturbed. */
  lemma DispatchStandsFor(e: Endpoint, q: seq<Datagram>, d: Datagram)
    requires StandsFor(e, q) && |d.data| < 65536
    ensures StandsFor(Dispatch(e, d), if Admits(q, d) then q + [d] else q)
    ensures !Admits(q, d) ==> Dispatch(e, d) == e
    ensures Dispatch(e, d).reader == e.reader
  {
    hide Offer, Frame, At, Held, Holds;
    OfferEffect(e.ring, Start(e), Frame(d));
    FramesAppend(q, d);
    assert e.ring.len == |Frames(q)| by { assert |Held(e.ring, Start(e))| == e.ring.len; }
  }

  lemma ReceiveStandsFor(e: Endpoint, q: seq<Datagram>, length: nat)
    requires StandsFor(e, q)
    ensures StandsFor(Receive(e, length), q)
    ensures Busy(Receive(e, length)) <==> Busy(e) || q != []
    ensures Busy(e) ==> Receive(e, length) == e
    ensures !Busy(e) && q != [] ==> Receive(e, length).reader.length == length
  {
    assert e.ring.len == |Frames(q)|;
    var e' := Receive(e, length);
    assert At(e.ring.tail, 0) == e.ring.tail;
    if !Busy(e) && q != [] {
      assert Frame(q[0])[..0] == [];
    }
  }

  /** A header read to its end is the header of the oldest datagram. */
  lemma HeaderStep(e: Endpoint, q: seq<Datagram>)
    requires StandsFor(e, q) && e.reader.InHeader?
    ensures StandsFor(Continue(e), q)
  {
    hide At, Held, Holds, Header;
    var got := e.reader.got;
    FrontBytes(e, q, |got|);
    FrontIs(e.ring, Start(e), |got|);
    assert got + [Front(e.ring)] == Frame(q[0])[..|got| + 1];
    assert Frame(q[0])[..HEADER] == Header(q[0].srcIp, q[0].srcPort, |q[0].data|);
    assert q[0].data[..0] == [];
  }

  lemma DataStep(e: Endpoint, q: seq<Datagram>)
    requires StandsFor(e, q) && e.reader.InData? && e.reader.i < |q[0].data|
    ensures HalfAt(e.reader.header, 6) == |q[0].data|
    ensures StandsFor(Continue(e), q)
    ensures Busy(Continue(e))
  {
    hide At, Held, Holds, Header;
    var i, d := e.reader.i, q[0];
    HeaderRoundTrip(d.srcIp, d.srcPort, |d.data|);
    FrontBytes(e, q, HEADER + i);
    FrontIs(e.ring, Start(e), HEADER + i);
    assert Front(e.ring) == d.data[i];
    assert d.data[..i + 1] == d.data[..i] + [d.data[i]];
  }

  /** The last step returns the oldest datagram, cut to the caller's length, and removes it. */
  lemma ReturnStep(e: Endpoint, q: seq<Datagram>)
    requires StandsFor(e, q) && e.reader.InData? && e.reader.i == |q[0].data|
    ensures StandsFor(Continue(e), q[1..])
    ensures Continue(e).reader == Done(Cut(q[0], e.reader.length))
  {
    hide At, Held, Holds, Header;
    var d := q[0];
    HeaderRoundTrip(d.srcIp, d.srcPort, |d.data|);
    ghost var n := HEADER + |d.data|;
    assert e.ring.len >= n by { assert |Held(e.ring, Start(e))| == e.ring.len; }
    ReleaseEffect(e.ring, Start(e), n);
    ReleasedLength(e.ring, Start(e), n);
    assert Frames(q)[n..] == Frames(q[1..]);
    assert d.data[..|d.data|] == d.data;
  }

  lemma ReleasedLength(r: Ring, start: nat, n: nat)
    requires Holds(r, start) && n <= r.len
    ensures Wrap(r.len - n) == r.len - n
  {
  }

  // ----- every interleaving -----

  datatype Event = Arrival(d: Datagram) | Call(length: nat) | Step

  /** The socket and its history: datagrams accepted, lengths that calls asked for, what they returned. */
  datatype History = History(e: Endpoint, accepted: seq<Datagram>, lengths: seq<nat>, returned: seq<Datagram>)

  predicate EventOk(v: Event) {
    v.Arrival? ==> |v.d.data| < 65536
  }

  function Next(h: History, v: Event): (h': History)
    requires Shaped(h.e) && EventOk(v)
    ensures Shaped(h'.e)
  {
    match v
    case Arrival(d) =>
      var e' := Dispatch(h.e, d);
      h.(e := e', accepted := if h.e.ring.len + |Frame(d)| <= SIZE then h.accepted + [d] else h.accepted)
    case Call(length) =>
      h.(e := Receive(h.e, length), lengths := if !Busy(h.e) && h.e.ring.len > 0 then h.lengths + [length] else h.lengths)
    case Step =>
      var e' := Continue(h.e);
      h.(e := e', returned := if Busy(h.e) && e'.reader.Done? then h.returned + [e'.reader.result] else h.returned)
  }

  function Run(h: History, events: seq<Event>): (h': History)
    requires Shaped(h.e) && forall v :: v in events ==> EventOk(v)
    ensures Shaped(h'.e)
    decreases |events|
  {
    if events == [] then h else Run(Next(h, events[0]), events[1..])
  }

  const Opened := History(Endpoint(EmptyRing(), Idle), [], [], [])

  /** First in, first out: call `k` returned datagram `k`, cut to what it asked; the rest is in the ring, in order. */
  predicate Fifo(h: History) {
    && |h.returned| <= |h.accepted| && |h.lengths| == |h.returned| + (if Busy(h.e) then 1 else 0)
    && (Busy(h.e) ==> h.e.reader.length == h.lengths[|h.returned|])
    && StandsFor(h.e, h.accepted[|h.returned|..])
    && (forall k :: 0 <= k < |h.returned| ==> h.returned[k] == Cut(h.accepted[k], h.lengths[k]))
  }

  lemma NextFifo(h: History, v: Event)
    requires Fifo(h) && EventOk(v)
    ensures Fifo(Next(h, v))
  {
    hide StandsFor, Dispatch, Receive, Continue, Cut;
    var q := h.accepted[|h.returned|..];
    Basics(h.e, q);
    match v
    case Arrival(d) =>
      DispatchStandsFor(h.e, q, d);
      assert (h.accepted + [d])[|h.returned|..] == q + [d];
    case Call(length) =>
      ReceiveStandsFor(h.e, q, length);
    case Step =>
      StepFifo(h);
  }

  lemma Basics(e: Endpoint, q: seq<Datagram>)
    requires StandsFor(e, q)
    ensures Shaped(e) && (Busy(e) ==> q != [])
    ensures forall d :: d in q ==> |d.data| < 65536
    ensures |Frames(q)| == e.ring.len
  {
    assert |Held(e.ring, Start(e))| == e.ring.len;
  }

  /** One step of the running call keeps the queue, or returns its oldest datagram. */
  lemma StepCases(e: Endpoint, q: seq<Datagram>)
    requires StandsFor(e, q)
    ensures var e' := Continue(e);
            || (StandsFor(e', q) && (Busy(e) <==> Busy(e')) && (Busy(e) ==> e'.reader.length == e.reader.length)
                && (e'.reader.Done? ==> !Busy(e)))
            || (StandsFor(e', q[1..]) && Busy(e) && q != [] && e'.reader == Done(Cut(q[0], e.reader.length)))
  {
    if e.reader.InHeader? {
      HeaderStep(e, q);
    } else if e.reader.InData? {
      if e.reader.i < |q[0].data| {
        DataStep(e, q);
      } else {
        ReturnStep(e, q);
      }
    }
  }

  lemma StepFifo(h: History)
    requires Fifo(h)
    ensures Fifo(Next(h, Step))
  {
    hide StandsFor, Continue, Cut;
    var q := h.accepted[|h.returned|..];
    Basics(h.e, q);
    StepCases(h.e, q);
    var h' := Next(h, Step);
    if |h'.returned| > |h.returned| {
      assert h'.accepted[|h'.returned|..] == q[1..];
    }
  }

  lemma {:induction false} RunFifo(h: History, events: seq<Event>)
    requires Fifo(h) && forall v :: v in events ==> EventOk(v)
    ensures Fifo(Run(h, events))
    decreases |events|
  {
    if events != [] {
      NextFifo(h, events[0]);
      RunFifo(Next(h, events[0]), events[1..]);
    }
  }

  lemma OpenedFifo()
    ensures Fifo(Opened)
  {
    var e := Opened.e;
    assert At(0, 0) == 0;
    assert Held(e.ring, 0) == [];
  }

  /**
    Any interleaving of arrivals, calls and single steps of the running call, from the
    fresh socket on: datagrams come back in order of acceptance, with their source,
    cut to what that call asked for; and an arrival is accepted exactly when its frame
    fits beside everything not yet returned.
   */
  lemma EveryInterleavingIsFifo(events: seq<Event>, d: Datagram)
    requires (forall v :: v in events ==> EventOk(v)) && |d.data| < 65536
    ensures var h := Run(Opened, events);
            && |h.returned| <= |h.accepted| && |h.returned| <= |h.lengths| <= |h.returned| + 1
            && (forall k :: 0 <= k < |h.returned| ==> h.returned[k] == Cut(h.accepted[k], h.lengths[k]))
            && StandsFor(h.e, h.accepted[|h.returned|..])
            && (if Admits(h.accepted[|h.returned|..], d)
                then Next(h, Arrival(d)).accepted == h.accepted + [d]
                else Next(h, Arrival(d)) == h)
  {
    OpenedFifo();
    RunFifo(Opened, events);
    var h := Run(Opened, events);
    var q := h.accepted[|h.returned|..];
    Basics(h.e, q);
    DispatchStandsFor(h.e, q, d);
  }

  /** The unread bytes always lie between where the running call began and the head. */
  lemma HeadFollowsTail(events: seq<Event>)
    requires forall v :: v in events ==> EventOk(v)
    ensures var e := Run(Opened, events).e;
            e.ring.head == (Start(e) + e.ring.len) % SIZE && e.ring.len <= SIZE
            && (Busy(e) ==> e.ring.tail == (Start(e) + Progress(e)) % SIZE && Progress(e) <= e.ring.len)
  {
    hide Frame, Run;
    OpenedFifo();
    RunFifo(Opened, events);
    var h := Run(Opened, events);
    var q := h.accepted[|h.returned|..];
    assert StandsFor(h.e, q);
    Basics(h.e, q);
    if Busy(h.e) {
      assert Frames(q) == Frame(q[0]) + Frames(q[1..]);
    }
  }

  // ----- a call that is running returns -----

  function Steps(events: seq<Event>): nat {
    if events == [] then 0 else (if events[0] == Step then 1 else 0) + Steps(events[1..])
  }

  /** A running call returns after at most `Remaining` of its own steps, whatever arrives meanwhile. */
  lemma {:induction false} CallReturns(h: History, events: seq<Event>)
    requires Fifo(h) && (forall v :: v in events ==> EventOk(v))
    requires Busy(h.e) && Steps(events) >= Remaining(h.e)
    ensures |Run(h, events).returned| > |h.returned|
    decreases |events|
  {
    hide StandsFor, Dispatch, Cut;
    Basics(h.e, h.accepted[|h.returned|..]);
    assert Remaining(h.e) > 0 && events != [];
    var h' := Next(h, events[0]);
    NextFifo(h, events[0]);
    if h'.returned == h.returned {
      NotReturned(h, events[0]);
      CallReturns(h', events[1..]);
    } else {
      ReturnedGrows(h', events[1..]);
    }
  }

  lemma NotReturned(h: History, v: Event)
    requires Fifo(h) && EventOk(v) && Busy(h.e) && Next(h, v).returned == h.returned
    ensures var e' := Next(h, v).e;
            Busy(e') && Remaining(e') + (if v == Step then 1 else 0) <= Remaining(h.e)
  {
  }

  lemma {:induction false} ReturnedGrows(h: History, events: seq<Event>)
    requires Shaped(h.e) && forall v :: v in events ==> EventOk(v)
    ensures |h.returned| <= |Run(h, events).returned|
    decreases |events|
  {
    if events != [] {
      ReturnedGrows(Next(h, events[0]), events[1..]);
    }
  }

  /** A call without interruption: the oldest datagram, cut, is returned and removed. */
  lemma {:induction false} FinishReturns(e: Endpoint, q: seq<Datagram>)
    requires StandsFor(e, q) && Busy(e)
    ensures q != [] && StandsFor(Finish(e), q[1..])
    ensures Finish(e).reader == Done(Cut(q[0], e.reader.length))
    decreases Remaining(e)
  {
    hide StandsFor, Cut;
    Basics(e, q);
    StepCases(e, q);
    if Busy(Continue(e)) {
      FinishReturns(Continue(e), q);
    }
  }

  /** A call on a socket that holds datagrams: the oldest, cut to what was asked, is returned and removed. */
  lemma CallReturnsOldest(e: Endpoint, q: seq<Datagram>, length: nat)
    requires StandsFor(e, q) && !Busy(e) && q != []
    ensures StandsFor(Finish(Receive(e, length)), q[1..])
    ensures Finish(Receive(e, length)).reader == Done(Cut(q[0], length))
  {
    hide StandsFor, Cut;
    ReceiveStandsFor(e, q, length);
    FinishReturns(Receive(e, length), q);
  }
}
