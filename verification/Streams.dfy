/**
  A stream socket: the same receive ring holding bytes without frames, filled by TCP
  and read by a task that may be anywhere between two of its byte reads.
 */
module Streams {
  import opened Words
  import opened Rings

  /** Where `socket_recvfrom` is in its stream branch. */
  datatype Reader = Idle | Reading(from: nat, want: nat, got: seq<byte>) | Done(result: seq<byte>)

  datatype Endpoint = Endpoint(ring: Ring, reader: Reader)

  function Opened(): Endpoint {
    Endpoint(EmptyRing(), Idle)
  }

  predicate Shaped(e: Endpoint) {
    |e.ring.buffer| == SIZE && e.ring.head < SIZE && e.ring.tail < SIZE
  }

  /** A call of `socket_recvfrom`; it waits (nothing changes) while the ring is empty. */
  function Receive(e: Endpoint, length: nat): (e': Endpoint) {
    if e.reader.Reading? || e.ring.len == 0 then e
    else e.(reader := Reading(e.ring.tail, if length < e.ring.len then length else e.ring.len, []))
  }

  /** The running call reads its next byte, or releases the space and returns. */
  function Continue(e: Endpoint): (e': Endpoint)
    requires Shaped(e)
    ensures Shaped(e')
  {
    match e.reader
    case Reading(from, want, got) =>
      if |got| < want then Endpoint(Advance(e.ring), Reading(from, want, got + [Front(e.ring)]))
      else Endpoint(e.ring.(len := Wrap(e.ring.len - want)), Done(got))
    case _ => e
  }

  /** The loop of `tcp_input`: `len` grows with every byte. */
  function PushAll(r: Ring, s: seq<byte>): (r': Ring)
    requires |r.buffer| == SIZE && r.head < SIZE
    ensures |r'.buffer| == SIZE && r'.head < SIZE && r'.tail == r.tail && r'.len == r.len + |s|
  {
    if s == [] then r
    else
      var p := PushAll(r, s[..|s| - 1]);
      PutByte(p, s[|s| - 1]).(len := p.len + 1)
  }

  /** Bytes accepted from TCP, all or none. */
  function Push(e: Endpoint, s: seq<byte>): (e': Endpoint)
    requires Shaped(e)
    ensures Shaped(e')
  {
    if e.ring.len + |s| <= SIZE then e.(ring := PushAll(e.ring, s)) else e
  }

  /** Counting byte by byte or at the end makes no difference. */
  lemma {:induction false} PushIsOffer(r: Ring, s: seq<byte>)
    requires |r.buffer| == SIZE && r.head < SIZE
    ensures PushAll(r, s) == PutAll(r, s).(len := r.len + |s|)
  {
    if s != [] {
      PushIsOffer(r, s[..|s| - 1]);
    }
  }

  function Finish(e: Endpoint): (e': Endpoint)
    requires Shaped(e)
    ensures Shaped(e') && !e'.reader.Reading?
    decreases if e.reader.Reading? then (if |e.reader.got| < e.reader.want then e.reader.want - |e.reader.got| else 0) + 1 else 0
  {
    if e.reader.Reading? then Finish(Continue(e)) else e
  }

  // ----- the stream the ring stands for -----

  function Start(e: Endpoint): nat {
    if e.reader.Reading? then e.reader.from else e.ring.tail
  }

  /** The endpoint stands for the bytes `q`, accepted and not yet returned by a call. */
  predicate StandsFor(e: Endpoint, q: seq<byte>) {
    && Shaped(e)
    && Holds(e.ring, Start(e))
    && Held(e.ring, Start(e)) == q
    && (e.reader.Reading? ==>
          && |e.reader.got| <= e.reader.want <= |q|
          && e.reader.got == q[..|e.reader.got|]
          && e.ring.tail == At(Start(e), |e.reader.got|))
  }

  lemma Basics(e: Endpoint, q: seq<byte>)
    requires StandsFor(e, q)
    ensures Shaped(e) && |q| == e.ring.len <= SIZE
    ensures e.ring.head == (Start(e) + e.ring.len) % SIZE
    ensures e.reader.Reading? ==> e.reader.want <= |q|
  {
  }

  lemma OpenedStandsFor()
    ensures StandsFor(Opened(), [])
  {
    assert At(0, 0) == 0;
  }

  /** Bytes offered to the ring by anyone: all go behind those held, or none. */
  lemma OfferStandsFor(e: Endpoint, q: seq<byte>, s: seq<byte>)
    requires StandsFor(e, q)
    ensures StandsFor(e.(ring := Offer(e.ring, s)), if |q| + |s| <= SIZE then q + s else q)
    ensures |q| + |s| > SIZE ==> Offer(e.ring, s) == e.ring
  {
    hide Offer, At, Held, Holds;
    Basics(e, q);
    OfferEffect(e.ring, Start(e), s);
    OfferIs(e.ring, s);
    assert e.reader.Reading? ==> (q + s)[..|e.reader.got|] == q[..|e.reader.got|];
  }

  lemma PushStandsFor(e: Endpoint, q: seq<byte>, s: seq<byte>)
    requires StandsFor(e, q)
    ensures StandsFor(Push(e, s), if |q| + |s| <= SIZE then q + s else q)
    ensures |q| + |s| > SIZE ==> Push(e, s) == e
  {
    hide Offer, PutAll, PushAll, StandsFor;
    Basics(e, q);
    OfferStandsFor(e, q, s);
    PushIsOffer(e.ring, s);
    OfferIs(e.ring, s);
  }

  lemma OfferIs(r: Ring, s: seq<byte>)
    requires |r.buffer| == SIZE && r.head < SIZE
    ensures Offer(r, s) == if r.len + |s| <= SIZE then PutAll(r, s).(len := r.len + |s|) else r
  {
  }

  lemma ReceiveStandsFor(e: Endpoint, q: seq<byte>, length: nat)
    requires StandsFor(e, q)
    ensures StandsFor(Receive(e, length), q)
    ensures Receive(e, length).reader.Reading? <==> e.reader.Reading? || q != []
  {
    Basics(e, q);
    assert At(e.ring.tail, 0) == e.ring.tail;
  }

  /** One step of the running call keeps the stream, or returns its first bytes. */
  lemma ContinueStandsFor(e: Endpoint, q: seq<byte>)
    requires StandsFor(e, q)
    ensures var e' := Continue(e);
            if e.reader.Reading? && |e.reader.got| == e.reader.want
            then e'.reader == Done(q[..e.reader.want]) && StandsFor(e', q[e.reader.want..])
            else StandsFor(e', q) && (e.reader.Reading? <==> e'.reader.Reading?)
  {
    hide At, Held, Holds;
    Basics(e, q);
    if e.reader.Reading? {
      var got, want := e.reader.got, e.reader.want;
      if |got| < want {
        ReadStep(e, q);
      } else {
        ReleaseEffect(e.ring, Start(e), want);
        WrapSmall(e.ring.len - want);
      }
    }
  }

  lemma ReadStep(e: Endpoint, q: seq<byte>)
    requires StandsFor(e, q) && e.reader.Reading? && |e.reader.got| < e.reader.want
    ensures StandsFor(Continue(e), q)
  {
    hide At, Held, Holds;
    Basics(e, q);
    var got := e.reader.got;
    FrontIs(e.ring, Start(e), |got|);
    assert q[..|got| + 1] == q[..|got|] + [q[|got|]];
  }

  /** An uninterrupted call returns the first `min(length, len)` bytes and keeps the rest. */
  lemma {:induction false} FinishReturns(e: Endpoint, q: seq<byte>)
    requires StandsFor(e, q) && e.reader.Reading?
    ensures e.reader.want <= |q|
    ensures Finish(e).reader == Done(q[..e.reader.want]) && StandsFor(Finish(e), q[e.reader.want..])
    decreases e.reader.want - |e.reader.got|
  {
    hide StandsFor;
    Basics(e, q);
    ContinueStandsFor(e, q);
    if |e.reader.got| != e.reader.want {
      GotBound(e, q);
      FinishReturns(Continue(e), q);
    }
  }

  lemma GotBound(e: Endpoint, q: seq<byte>)
    requires StandsFor(e, q) && e.reader.Reading?
    ensures |e.reader.got| <= e.reader.want
  {
  }

  /** While data is held, a new call returns the first `min(length, len)` bytes and keeps the rest. */
  lemma ReceiveReturns(e: Endpoint, q: seq<byte>, length: nat)
    requires StandsFor(e, q) && !e.reader.Reading? && q != []
    ensures var n, e' := if length < |q| then length else |q|, Finish(Receive(e, length));
            e'.reader == Done(q[..n]) && StandsFor(e', q[n..])
  {
    hide StandsFor;
    Basics(e, q);
    ReceiveStandsFor(e, q, length);
    FinishReturns(Receive(e, length), q);
  }

  /** Without data, or while another call runs, nothing begins. */
  lemma ReceiveWaits(e: Endpoint, q: seq<byte>, length: nat)
    requires StandsFor(e, q) && (e.reader.Reading? || q == [])
    ensures Receive(e, length) == e
  {
    Basics(e, q);
  }
}
