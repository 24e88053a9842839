/**
  What a connection delivers: no accepted byte is lost or altered between TCP and the
  reader, and `rcv_nxt` counts the bytes accepted exactly when segments are taken in order.
 */
module TcpReceiver {
  import opened Words
  import Rings
  import Streams
  import Datagrams
  import opened Tcp
  import TcpSender
  import TcpGaps

  // ----- stored bytes reach the reader -----

  /** What was returned, then what the ring still holds, is what was stored. */
  predicate Kept(h: History) {
    && |h.returned| <= |h.stored|
    && h.returned == h.stored[..|h.returned|]
    && Streams.StandsFor(h.c.ep, h.stored[|h.returned|..])
    && |h.stored| == |h.accepted| + h.framed
    && (h.framed == 0 ==> h.stored == h.accepted)
  }

  lemma InputRing(c: Conn, s: Arrival)
    requires Streams.Shaped(c.ep)
    ensures Input(c, s).c.ep == if TakesData(c, s) then Streams.Push(c.ep, s.payload) else c.ep
  {
    hide Wrap;
  }

  lemma StepRing(c: Conn, v: Event)
    requires Streams.Shaped(c.ep)
    ensures Step(c, v).c.ep ==
            if !c.live then c.ep
            else if v.Arrives? then (if TakesPayload(c, v) then Streams.Push(c.ep, v.s.payload) else c.ep)
            else if v.Recv? then Streams.Receive(c.ep, v.length)
            else if v.ReadOn? then Streams.Continue(c.ep)
            else if v.UdpArrives? then c.ep.(ring := Rings.Offer(c.ep.ring, Datagrams.Frame(v.d)))
            else c.ep
  {
    hide Input, Wrap, Rings.Offer, Datagrams.Frame;
    if v.Arrives? {
      InputRing(c, v.s);
    }
  }

  lemma NextKept(h: History, v: Event)
    requires Kept(h)
    ensures Kept(Next(h, v))
  {
    hide Step, Kept, Streams.StandsFor, Streams.Push, Streams.Receive, Streams.Continue, Streams.Shaped, Wrap, Rings.Offer, Datagrams.Frame;
    if h.c.live && v.Arrives? {
      DataKept(h, v.s);
    } else if h.c.live && v.UdpArrives? {
      UdpKept(h, v.d);
    } else if h.c.live && v.ReadOn? {
      ReadKept(h);
    } else {
      OtherKept(h, v);
    }
  }

  lemma DataKept(h: History, s: Arrival)
    requires Kept(h) && h.c.live
    ensures Kept(Next(h, Arrives(s)))
  {
    hide Step, Streams.StandsFor, Streams.Push, Streams.Shaped, Wrap, Returned;
    var q := h.stored[|h.returned|..];
    Streams.Basics(h.c.ep, q);
    StepRing(h.c, Arrives(s));
    Streams.PushStandsFor(h.c.ep, q, s.payload);
    assert (h.stored + s.payload)[|h.returned|..] == q + s.payload;
    assert (h.stored + s.payload)[..|h.returned|] == h.stored[..|h.returned|];
  }

  /** Receive calls, sends and closing store and return nothing. */
  lemma OtherKept(h: History, v: Event)
    requires Kept(h) && (h.c.live ==> !v.Arrives? && !v.UdpArrives? && !v.ReadOn?)
    ensures Kept(Next(h, v))
  {
    hide Step, Streams.StandsFor, Streams.Receive, Streams.Shaped, Wrap, Returned, Datagrams.Frame, Rings.Offer;
    var q := h.stored[|h.returned|..];
    Streams.Basics(h.c.ep, q);
    StepRing(h.c, v);
    if v.Recv? {
      Streams.ReceiveStandsFor(h.c.ep, q, v.length);
    }
  }

  lemma UdpKept(h: History, d: UdpDatagram)
    requires Kept(h) && h.c.live
    ensures Kept(Next(h, UdpArrives(d)))
  {
    hide Step, Streams.StandsFor, Streams.Shaped, Wrap, Rings.Offer, Datagrams.Frame, Returned, Streams.Continue;
    var q, f := h.stored[|h.returned|..], Datagrams.Frame(d);
    Streams.Basics(h.c.ep, q);
    StepRing(h.c, UdpArrives(d));
    Streams.OfferStandsFor(h.c.ep, q, f);
    assert (h.stored + f)[|h.returned|..] == q + f;
    assert (h.stored + f)[..|h.returned|] == h.stored[..|h.returned|];
  }

  lemma ReadKept(h: History)
    requires Kept(h) && h.c.live
    ensures Kept(Next(h, ReadOn))
  {
    hide Streams.StandsFor, Streams.Continue, Streams.Shaped, Wrap;
    var q := h.stored[|h.returned|..];
    Streams.Basics(h.c.ep, q);
    Streams.ContinueStandsFor(h.c.ep, q);
    var h' := Next(h, ReadOn);
    if |h'.returned| > |h.returned| {
      assert h'.returned == h.returned + q[..h.c.ep.reader.want];
      assert h.stored == h.returned + q;
      assert h'.stored[|h'.returned|..] == q[h.c.ep.reader.want..];
    }
  }

  lemma {:induction false} RunKept(h: History, events: seq<Event>)
    requires Kept(h)
    ensures Kept(Run(h, events))
    decreases |events|
  {
    if events != [] {
      NextKept(h, events[0]);
      RunKept(Next(h, events[0]), events[1..]);
    }
  }

  lemma BegunKept(o: Outcome, isn: u32)
    requires Opening(o, isn)
    ensures Kept(Begun(o))
  {
    Streams.OpenedStandsFor();
  }

  /** No UDP datagram is framed into the stream during the run. */
  predicate NoUdp(h: History, events: seq<Event>)
    requires Streams.Shaped(h.c.ep)
    decreases |events|
  {
    events == [] || (!TakesUdp(h.c, events[0]) && NoUdp(Next(h, events[0]), events[1..]))
  }

  lemma {:induction false} FramedIff(h: History, events: seq<Event>)
    requires Streams.Shaped(h.c.ep)
    ensures Run(h, events).framed == h.framed <==> NoUdp(h, events)
    ensures Run(h, events).framed >= h.framed
    decreases |events|
  {
    hide Step, Returned, Wrap;
    if events != [] {
      FramedIff(Next(h, events[0]), events[1..]);
    }
  }

  /**
    Over any run, with arrivals anywhere between the byte reads of a receive call: the
    bytes returned and the bytes in the ring are, in order, everything stored; and that is the
    payloads accepted from TCP exactly when no UDP datagram for the same port was stored among them.
   */
  lemma AcceptedReachesReader(o: Outcome, isn: u32, events: seq<Event>)
    requires Opening(o, isn)
    ensures Streams.Shaped(Begun(o).c.ep)
    ensures var h := Run(Begun(o), events);
            && |h.returned| <= |h.stored| && Streams.StandsFor(h.c.ep, h.stored[|h.returned|..])
            && h.returned + Rings.Held(h.c.ep.ring, Streams.Start(h.c.ep)) == h.stored
            && (h.stored == h.accepted <==> NoUdp(Begun(o), events))
  {
    hide Run, Wrap, Opening;
    BegunKept(o, isn);
    RunKept(Begun(o), events);
    FramedIff(Begun(o), events);
  }

  // ----- call by call -----

  function Join(answers: seq<seq<byte>>): seq<byte> {
    if answers == [] then [] else Join(answers[..|answers| - 1]) + answers[|answers| - 1]
  }

  /** What a call is to return: as much as asked, or all there was. */
  function Due(call: Call): int {
    if call.asked < call.held then call.asked else call.held
  }

  /** Every call but perhaps the last was answered with what it was due; the last is reading that much. */
  predicate Answered(h: History) {
    && |h.calls| == |h.answers| + (if h.c.ep.reader.Reading? then 1 else 0)
    && (forall k :: 0 <= k < |h.answers| ==> |h.answers[k]| == Due(h.calls[k]))
    && (h.c.ep.reader.Reading? ==> h.c.ep.reader.want == Due(h.calls[|h.answers|]))
    && Join(h.answers) == h.returned
  }

  lemma JoinMore(answers: seq<seq<byte>>, a: seq<byte>)
    ensures Join(answers + [a]) == Join(answers) + a
  {
    assert (answers + [a])[..|answers|] == answers;
  }

  lemma NextAnswered(h: History, v: Event)
    requires Kept(h) && Answered(h)
    ensures Answered(Next(h, v))
  {
    hide Step, Wrap, Rings.Offer, Datagrams.Frame, Streams.StandsFor, Join, TakesData;
    var q := h.stored[|h.returned|..];
    Streams.Basics(h.c.ep, q);
    StepRing(h.c, v);
    if h.c.live && v.ReadOn? && h.c.ep.reader.Reading? {
      EndsWhenAll(h.c.ep, q);
      if Ends(h.c, v) {
        JoinMore(h.answers, Returned(h.c.ep));
      }
    }
  }

  /** A call ends when it has read all it is due, and answers that. */
  lemma EndsWhenAll(e: Streams.Endpoint, q: seq<byte>)
    requires Streams.StandsFor(e, q) && e.reader.Reading?
    ensures Streams.Shaped(e)
    ensures Streams.Continue(e).reader.Done? || (Streams.Continue(e).reader.Reading? && Streams.Continue(e).reader.want == e.reader.want)
    ensures Streams.Continue(e).reader.Done? ==> |Returned(e)| == e.reader.want
    ensures !Streams.Continue(e).reader.Done? ==> Returned(e) == []
  {
  }

  lemma {:induction false} RunAnswered(h: History, events: seq<Event>)
    requires Kept(h) && Answered(h)
    ensures Answered(Run(h, events))
    decreases |events|
  {
    hide Kept, Answered, Next;
    KeptShaped(h);
    if events != [] {
      NextKept(h, events[0]);
      NextAnswered(h, events[0]);
      RunAnswered(Next(h, events[0]), events[1..]);
    }
  }

  lemma KeptShaped(h: History)
    requires Kept(h)
    ensures Streams.Shaped(h.c.ep)
  {
  }

  /**
    Over any run each receive call that has returned gave as many bytes as were asked for, or all that were stored and
    not yet returned when it began, whichever is less; and the answers, joined, are what was returned.
   */
  lemma CallsReturnWhatIsDue(o: Outcome, isn: u32, events: seq<Event>)
    requires Opening(o, isn)
    ensures Streams.Shaped(Begun(o).c.ep)
    ensures var h := Run(Begun(o), events);
            && |h.answers| <= |h.calls| <= |h.answers| + 1
            && (forall k :: 0 <= k < |h.answers| ==>
                  |h.answers[k]| == if h.calls[k].asked < h.calls[k].held then h.calls[k].asked else h.calls[k].held)
            && Join(h.answers) == h.returned
  {
    hide Run, Wrap, Kept;
    BegunKept(o, isn);
    RunAnswered(Begun(o), events);
  }

  /** Data that does not fit in the ring changes nothing and is not acknowledged. */
  lemma NoRoomChangesNothing(c: Conn, s: Arrival)
    requires Streams.Shaped(c.ep) && c.pcb.state == Established && !s.flags.fin
    ensures Input(c, s) == Outcome(c, []) <==> s.payload == [] || c.ep.ring.len + |s.payload| > Rings.SIZE
  {
  }

  /**
    While established, a segment without a FIN that matches leaves no trace in the rest of a run exactly
    when it is empty or does not fit: it is as if it had been lost.
   */
  lemma RefusedIsAsLost(h: History, s: Arrival, rest: seq<Event>)
    requires Streams.Shaped(h.c.ep) && h.c.live && Matches(h.c.pcb, s)
    requires h.c.pcb.state == Established && !s.flags.fin
    ensures var refused := s.payload == [] || h.c.ep.ring.len + |s.payload| > Rings.SIZE;
            && (Next(h, Arrives(s)) == h <==> refused)
            && (refused ==> Run(h, [Arrives(s)] + rest) == Run(h, rest))
  {
    hide Input, Run, Rings.Offer, Datagrams.Frame, Returned;
    NoRoomChangesNothing(h.c, s);
    assert h.sent + [] == h.sent;
    TcpSender.RunCons(h, Arrives(s), rest);
  }

  // ----- rcv_nxt -----

  /** The next sequence number expected: the peer's SYN, the bytes accepted, its FIN. */
  function Expected(h: History): u32 {
    Wrap(h.irs + 1 + |h.accepted| + (if h.finTaken then 1 else 0))
  }

  predicate Conserved(h: History) {
    h.synced ==> h.c.pcb.rcvNxt == Expected(h)
  }

  /** In the states before the peer's SYN nothing was accepted; in those before its FIN, no FIN. */
  predicate Tracks(h: History) {
    && Streams.Shaped(h.c.ep)
    && (h.c.pcb.state in {Listen, SynSent} ==> !h.synced)
    && (h.c.pcb.state !in {Listen, SynSent, Closed} ==> h.synced)
    && (!h.synced ==> h.accepted == [] && !h.finTaken)
    && (h.c.pcb.state in {SynReceived, Established, FinWait1, FinWait2} ==> !h.finTaken)
  }

  /** Data or a FIN is taken only at `rcv_nxt`; the code itself does not look. */
  predicate InOrderAt(h: History, v: Event) {
    TakesPayload(h.c, v) || TakesFin(h.c, v) ==> v.s.seqNum == h.c.pcb.rcvNxt
  }

  lemma InputNumbers(c: Conn, s: Arrival)
    requires Streams.Shaped(c.ep)
    ensures var p, p' := c.pcb, Input(c, s).c.pcb;
            p'.rcvNxt ==
              if p.state == Listen && s.flags.syn then Wrap(s.seqNum + 1)
              else if p.state == SynSent && s.flags.syn && s.flags.ack then Wrap(s.seqNum + 1)
              else if p.state in {Established, FinWait1, FinWait2} && s.flags.fin then Wrap(s.seqNum + 1)
              else if TakesData(c, s) then Wrap(s.seqNum + |s.payload|)
              else p.rcvNxt
  {
    hide Wrap, Streams.Push;
  }

  lemma StepNumbers(c: Conn, v: Event)
    requires Streams.Shaped(c.ep)
    ensures Step(c, v).c.pcb.rcvNxt ==
            if Synchronises(c, v) || TakesFin(c, v) then Wrap(v.s.seqNum + 1)
            else if TakesPayload(c, v) then Wrap(v.s.seqNum + |v.s.payload|)
            else c.pcb.rcvNxt
  {
    hide Wrap, Input;
    if v.Arrives? {
      InputNumbers(c, v.s);
    }
  }

  lemma StepStates(h: History, v: Event)
    requires Tracks(h)
    ensures Tracks(Next(h, v))
  {
    hide Wrap, Streams.Push, Streams.Continue, Streams.Receive, Streams.Shaped, Returned;
  }

  lemma WrapPlus(a: u32, b: int, n: nat)
    ensures Wrap(a + n) == Wrap(b + n) <==> a == Wrap(b)
  {
    var back: int := 0 - n;
    WrapTwice(b + n, back);
    WrapTwice(a + n, back);
    WrapTwice(b, n);
    WrapSmall(a);
  }

  /** One step keeps the count exactly when what it takes is in order. */
  lemma NextConservedIff(h: History, v: Event)
    requires Tracks(h) && Conserved(h)
    ensures Tracks(Next(h, v))
    ensures Conserved(Next(h, v)) <==> InOrderAt(h, v)
  {
    hide Wrap, Step, TakesData, Tracks;
    StepStates(h, v);
    assert Streams.Shaped(h.c.ep) by { TracksIs(h); }
    StepNumbers(h.c, v);
    TracksIs(h);
    var h', n := Next(h, v), h.irs + 1 + |h.accepted|;
    if TakesFin(h.c, v) {
      WrapPlus(v.s.seqNum, n, 1);
      assert Expected(h) == Wrap(n);
      assert !TakesPayload(h.c, v) by { TakesNotBoth(h.c, v); }
      assert Expected(h') == Wrap(n + 1);
    } else if TakesPayload(h.c, v) {
      TakesDataIs(h.c, v.s);
      WrapPlus(v.s.seqNum, n, |v.s.payload|);
      assert Expected(h) == Wrap(n);
      assert Expected(h') == Wrap(n + |v.s.payload|);
    } else if Synchronises(h.c, v) {
      assert Expected(h') == Wrap(v.s.seqNum + 1);
    } else {
      assert h.synced ==> Expected(h') == Expected(h);
    }
  }

  lemma TakesNotBoth(c: Conn, v: Event)
    ensures !(TakesFin(c, v) && TakesPayload(c, v))
  {
  }

  lemma TakesDataIs(c: Conn, s: Arrival)
    requires TakesData(c, s)
    ensures c.pcb.state == Established && !s.flags.fin
  {
  }

  lemma TracksIs(h: History)
    requires Tracks(h)
    ensures Streams.Shaped(h.c.ep)
    ensures h.c.pcb.state in {Listen, SynSent} ==> !h.synced && h.accepted == [] && !h.finTaken
    ensures h.c.pcb.state in {Established, FinWait1, FinWait2} ==> h.synced && !h.finTaken
  {
  }

  predicate InOrder(h: History, events: seq<Event>)
    requires Streams.Shaped(h.c.ep)
    decreases |events|
  {
    events == [] || (InOrderAt(h, events[0]) && InOrder(Next(h, events[0]), events[1..]))
  }

  predicate AlwaysConserved(h: History, events: seq<Event>)
    requires Streams.Shaped(h.c.ep)
    decreases |events|
  {
    Conserved(h) && (events == [] || AlwaysConserved(Next(h, events[0]), events[1..]))
  }

  lemma {:induction false} RunConservedIff(h: History, events: seq<Event>)
    requires Tracks(h) && Conserved(h)
    ensures AlwaysConserved(h, events) <==> InOrder(h, events)
    decreases |events|
  {
    hide Tracks, Conserved, InOrderAt, Next;
    TracksIs(h);
    if events != [] {
      NextConservedIff(h, events[0]);
      if InOrderAt(h, events[0]) {
        RunConservedIff(Next(h, events[0]), events[1..]);
      } else {
        NotConserved(Next(h, events[0]), events[1..]);
      }
    }
  }

  lemma NotConserved(h: History, events: seq<Event>)
    requires Streams.Shaped(h.c.ep) && !Conserved(h)
    ensures !AlwaysConserved(h, events)
  {
  }

  lemma BegunTracks(o: Outcome, isn: u32)
    requires Opening(o, isn)
    ensures Tracks(Begun(o)) && Conserved(Begun(o))
  {
  }

  /**
    Stream conservation: `rcv_nxt - (IRS + 1)` is, modulo 2^32, the number of bytes
    accepted (and one for the FIN) at every moment of a run, if and only if every
    segment whose data or FIN was taken arrived with `seq == rcv_nxt`.
   */
  lemma ConservedIffInOrder(o: Outcome, isn: u32, events: seq<Event>)
    requires Opening(o, isn)
    ensures AlwaysConserved(Begun(o), events) <==> InOrder(Begun(o), events)
  {
    BegunTracks(o, isn);
    RunConservedIff(Begun(o), events);
  }

  /** Nothing in the code refuses a repeated segment: its data is stored a second time. */
  lemma DuplicateIsStoredTwice(irs: u32, x: byte)
    ensures Streams.Shaped(Begun(ListenOn(80)).c.ep)
    ensures var data := Arrives(Arrival(1, 2000, 80, Wrap(irs + 1), PshAck(), [x]));
            Run(Begun(ListenOn(80)), TcpSender.HandshakeOn(80, irs) + [data, data]).accepted == [x, x]
  {
    hide Wrap, Run, TcpSender.HandshakeOn;
    var data := Arrives(Arrival(1, 2000, 80, Wrap(irs + 1), PshAck(), [x]));
    TcpSender.AfterHandshake(80, irs, [data, data]);
    TcpSender.TwoEvents(TcpSender.Shaken(80, irs), data, data);
  }

  /**
    A UDP datagram for the port of an established connection: the program reads its
    header and data from the TCP stream, in which nothing was accepted.
   */
  lemma UdpIsReadAsStream(irs: u32, ip: u32, port: u16, x: byte)
    ensures Streams.Shaped(Begun(ListenOn(80)).c.ep)
    ensures var d := Datagrams.Datagram(ip, port, [x]);
            var h := Run(Begun(ListenOn(80)), TcpSender.HandshakeOn(80, irs) + [UdpArrives(d), Recv(|Datagrams.Frame(d)|)]);
            && h.accepted == [] && h.stored == Datagrams.Frame(d)
            && Streams.StandsFor(h.c.ep, Datagrams.Frame(d))
            && h.c.ep.reader.Reading? && h.c.ep.reader.want == |Datagrams.Frame(d)|
  {
    hide Wrap, Run, TcpSender.HandshakeOn, Streams.StandsFor, Rings.PutAll, Rings.Held, Datagrams.Frame;
    var d := Datagrams.Datagram(ip, port, [x]);
    var udp, recv := UdpArrives(d), Recv(|Datagrams.Frame(d)|);
    TcpSender.AfterHandshake(80, irs, [udp, recv]);
    TcpSender.TwoEvents(TcpSender.Shaken(80, irs), udp, recv);
    var events := TcpSender.HandshakeOn(80, irs) + [udp, recv];
    AcceptedReachesReader(ListenOn(80), 0, events);
    var h := Run(Begun(ListenOn(80)), events);
    assert h.stored == [] + Datagrams.Frame(d) && h.returned == [];
    assert h.stored[0..] == h.stored;
  }

  // ----- end to end -----

  /**
    A segment of a peer whose stream begins with `stream` and whose SYN has number `isn`: its data
    is the piece of the stream that its number says, or lies behind, where nothing is known.
   */
  ghost predicate Honest(s: Arrival, stream: seq<byte>, isn: u32) {
    && (s.flags.syn ==> s.seqNum == isn)
    && (s.payload != [] ==> exists k: nat :: CarriesAt(s, stream, isn, k))
  }

  predicate CarriesAt(s: Arrival, stream: seq<byte>, isn: u32, k: nat) {
    && s.seqNum == Wrap(isn + 1 + k) && k < TWO32
    && (k > |stream| || (k + |s.payload| <= |stream| && stream[k .. k + |s.payload|] == s.payload))
  }

  ghost predicate AllHonest(events: seq<Event>, stream: seq<byte>, isn: u32) {
    forall v :: v in events && v.Arrives? ==> Honest(v.s, stream, isn)
  }

  predicate IsPrefix(h: History, stream: seq<byte>, isn: u32) {
    && Tracks(h) && Conserved(h)
    && (h.synced ==> h.irs == isn)
    && |h.accepted| <= |stream| && h.accepted == stream[..|h.accepted|]
  }

  lemma SamePosition(isn: u32, k: nat, n: nat)
    requires k < TWO32 && n < TWO32 && Wrap(isn + 1 + k) == Wrap(isn + 1 + n)
    ensures k == n
  {
  }

  lemma NextIsPrefix(h: History, v: Event, stream: seq<byte>, isn: u32)
    requires IsPrefix(h, stream, isn) && |stream| < TWO32
    requires v.Arrives? ==> Honest(v.s, stream, isn)
    requires InOrderAt(h, v)
    ensures IsPrefix(Next(h, v), stream, isn)
  {
    hide Wrap, Tracks, Step, TakesData;
    NextConservedIff(h, v);
    TracksIs(h);
    if TakesPayload(h.c, v) {
      TakesDataIs(h.c, v.s);
      PayloadIs(h, v.s, stream, isn);
    }
  }

  lemma PayloadIs(h: History, s: Arrival, stream: seq<byte>, isn: u32)
    requires IsPrefix(h, stream, isn) && |stream| < TWO32 && h.synced && !h.finTaken
    requires Honest(s, stream, isn) && TakesData(h.c, s) && s.seqNum == h.c.pcb.rcvNxt
    ensures |h.accepted| + |s.payload| <= |stream|
    ensures h.accepted + s.payload == stream[..|h.accepted| + |s.payload|]
  {
    hide Wrap, Tracks;
    var k: nat :| CarriesAt(s, stream, isn, k);
    SamePosition(isn, k, |h.accepted|);
  }

  lemma {:induction false} RunIsPrefix(h: History, events: seq<Event>, stream: seq<byte>, isn: u32)
    requires IsPrefix(h, stream, isn) && |stream| < TWO32 && AllHonest(events, stream, isn)
    requires InOrder(h, events)
    ensures IsPrefix(Run(h, events), stream, isn)
    decreases |events|
  {
    hide Conserved, Tracks, Honest, Next, InOrderAt;
    TracksIs(h);
    if events != [] {
      NextIsPrefix(h, events[0], stream, isn);
      RunIsPrefix(Next(h, events[0]), events[1..], stream, isn);
    }
  }

  /** `s` is one of the segments `sent`, as the other side reads it. */
  predicate Delivers(s: Arrival, sent: seq<Segment>) {
    exists i :: 0 <= i < |sent| && s.seqNum == sent[i].seqNum && s.flags == sent[i].flags && s.payload == sent[i].data
  }

  lemma SynIsFirst(o: Outcome, isn: u32, events: seq<Event>, i: nat)
    requires Opening(o, isn) && Streams.Shaped(Begun(o).c.ep) && i < |Run(Begun(o), events).sent|
    ensures var s := Run(Begun(o), events).sent[i];
            s.flags.syn ==> s.seqNum == isn
  {
    hide Run, Wrap;
    TcpSender.SenderSafety(o, isn, events);
  }

  lemma SentIsHonest(o: Outcome, isn: u32, events: seq<Event>, s: Arrival)
    requires Opening(o, isn) && Streams.Shaped(Begun(o).c.ep) && TcpGaps.Spent(Begun(o), events) < TWO32
    requires Delivers(s, Run(Begun(o), events).sent)
    ensures Honest(s, TcpGaps.Solid(Begun(o), events), isn)
  {
    hide Wrap, Run, Opening, TcpSender.SynFirst, TcpSender.FinLast, TcpSender.Bytes, TcpGaps.Solid, TcpGaps.Spent;
    var h, solid, spent := Run(Begun(o), events), TcpGaps.Solid(Begun(o), events), TcpGaps.Spent(Begun(o), events);
    var i :| 0 <= i < |h.sent| && s.seqNum == h.sent[i].seqNum && s.flags == h.sent[i].flags && s.payload == h.sent[i].data;
    SynIsFirst(o, isn, events, i);
    if s.payload != [] {
      TcpGaps.SolidKeepsItsPlace(o, isn, events);
      var k: nat :| TcpGaps.PlacedAt(h.sent[i], isn, solid, spent, k);
      assert CarriesAt(s, solid, isn, k);
    }
  }

  /**
    Two ends: whatever segments of one end reach the other, lost, repeated or reordered,
    as long as the ones taken are in order the receiver accepts a prefix of what was put on the wire
    before the first overlong message, which is all of it when there was none; fewer than 2^32
    numbers being used for data.  What was put on the wire is what the send calls reported as sent if and
    only if every message had at most 65515 bytes; and the receiving program gets what was
    accepted unless UDP datagrams were stored among it.
   */
  lemma EndToEnd(o1: Outcome, isn1: u32, events1: seq<Event>, o2: Outcome, isn2: u32, events2: seq<Event>)
    requires Opening(o1, isn1) && Opening(o2, isn2) && Streams.Shaped(Begun(o1).c.ep) && Streams.Shaped(Begun(o2).c.ep)
    requires TcpGaps.Spent(Begun(o1), events1) < TWO32
    requires forall v :: v in events2 && v.Arrives? ==> Delivers(v.s, Run(Begun(o1), events1).sent)
    requires InOrder(Begun(o2), events2)
    ensures var h1, h2, solid := Run(Begun(o1), events1), Run(Begun(o2), events2), TcpGaps.Solid(Begun(o1), events1);
            && TcpGaps.PrefixOf(h2.accepted, solid)
            && TcpGaps.PrefixOf(solid, TcpSender.Bytes(h1.sent))
            && (TcpSender.NoOverlong(Begun(o1), events1) ==>
                  solid == TcpSender.Bytes(h1.sent) && |solid| == TcpGaps.Spent(Begun(o1), events1))
            && (TcpSender.Bytes(h1.sent) == h1.handed <==> TcpSender.AllFit(Begun(o1), events1))
            && (NoUdp(Begun(o2), events2) ==> TcpGaps.PrefixOf(h2.returned, solid))
  {
    hide Wrap, Run, Opening, Honest, Delivers, InOrder, TcpSender.Bytes, TcpSender.Total, TcpSender.SynFirst, TcpSender.FinLast;
    hide Kept, TcpGaps.Solid, TcpGaps.Spent, TcpSender.NoOverlong, TcpSender.AllFit;
    var stream := TcpGaps.Solid(Begun(o1), events1);
    forall v | v in events2 && v.Arrives?
      ensures Honest(v.s, stream, isn1)
    {
      SentIsHonest(o1, isn1, events1, v.s);
    }
    TcpSender.SenderSafety(o1, isn1, events1);
    TcpGaps.SolidKeepsItsPlace(o1, isn1, events1);
    BegunTracks(o2, isn2);
    assert IsPrefix(Begun(o2), stream, isn1);
    RunIsPrefix(Begun(o2), events2, stream, isn1);
    BegunKept(o2, isn2);
    RunKept(Begun(o2), events2);
    FramedIff(Begun(o2), events2);
    KeptPrefix(Run(Begun(o2), events2), stream);
  }

  lemma KeptPrefix(h: History, stream: seq<byte>)
    requires Kept(h)
    ensures h.framed == 0 && TcpGaps.PrefixOf(h.accepted, stream) ==> TcpGaps.PrefixOf(h.returned, stream)
  {
  }
}
