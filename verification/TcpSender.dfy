/**
  What a connection emits over its whole life: sequence numbers without a gap, one SYN,
  at most one FIN and nothing but acknowledgements after it.
 */
module TcpSender {
  import opened Words
  import Streams
  import opened Tcp

  /** Sequence numbers used up by all the segments. */
  function Total(sent: seq<Segment>): nat {
    if sent == [] then 0 else Total(sent[..|sent| - 1]) + Length(sent[|sent| - 1])
  }

  /** The data of all the segments, in order. */
  function Bytes(sent: seq<Segment>): seq<byte> {
    if sent == [] then [] else Bytes(sent[..|sent| - 1]) + sent[|sent| - 1].data
  }

  /** Every segment starts where the previous one ended, the first at `isn`. */
  predicate Chained(sent: seq<Segment>, isn: u32) {
    forall i :: 0 <= i < |sent| ==> sent[i].seqNum == Wrap(isn + Total(sent[..i]))
  }

  /** The first segment, and no other, is the SYN. */
  predicate SynFirst(sent: seq<Segment>) {
    forall i :: 0 <= i < |sent| ==> (sent[i].flags.syn <==> i == 0) && (i == 0 ==> sent[i].data == [] && !sent[i].flags.fin)
  }

  /** A FIN carries no data and is followed by bare acknowledgements only. */
  predicate FinLast(sent: seq<Segment>) {
    forall i, j :: 0 <= i <= j < |sent| && sent[i].flags.fin ==> sent[j].data == [] && (i < j ==> !sent[j].flags.fin)
  }

  predicate NoFin(sent: seq<Segment>) {
    forall i :: 0 <= i < |sent| ==> !sent[i].flags.fin
  }

  datatype Phase = Waiting | Sending | Finished | Over

  /** Nothing sent yet; SYN sent and no FIN; FIN sent; closed. */
  function PhaseOf(state: State): Phase {
    match state
    case Listen => Waiting
    case Closed => Over
    case SynSent | SynReceived | Established | CloseWait => Sending
    case _ => Finished
  }

  /** In the states where data or a FIN may still be sent, no FIN was. */
  predicate PhaseFits(phase: Phase, sent: seq<Segment>) {
    match phase
    case Over => true
    case Waiting => sent == []
    case Sending => sent != [] && NoFin(sent)
    case Finished => sent != [] && !NoFin(sent)
  }

  /** The shape of what was sent, whatever happens. */
  predicate SenderOk(h: History, isn: u32) {
    && Streams.Shaped(h.c.ep)
    && SynFirst(h.sent) && FinLast(h.sent)
    && PhaseFits(PhaseOf(h.c.pcb.state), h.sent)
    && (if h.sent == [] then h.c.pcb.sndNxt == isn else h.sent[0].seqNum == isn)
    && (!h.c.live ==> h.c.pcb.state == Closed)
  }

  /** Sequence numbers follow one another up to `snd_nxt`. */
  predicate Numbered(h: History, isn: u32) {
    Chained(h.sent, isn) && h.c.pcb.sndNxt == Wrap(isn + Total(h.sent))
  }

  // ----- one emission -----

  lemma Appended(sent: seq<Segment>, s: Segment)
    ensures Total(sent + [s]) == Total(sent) + Length(s)
    ensures Bytes(sent + [s]) == Bytes(sent) + s.data
  {
    assert (sent + [s])[..|sent|] == sent;
  }

  lemma EmitChains(sent: seq<Segment>, isn: u32, s: Segment)
    requires Chained(sent, isn) && s.seqNum == Wrap(isn + Total(sent))
    ensures Chained(sent + [s], isn) && Wrap(s.seqNum + Length(s)) == Wrap(isn + Total(sent + [s]))
  {
    hide Wrap, Total, Bytes, Length;
    Appended(sent, s);
    WrapTwice(isn + Total(sent), Length(s));
    assert sent[..|sent|] == sent;
    var all := sent + [s];
    forall i | 0 <= i < |all|
      ensures all[i].seqNum == Wrap(isn + Total(all[..i]))
    {
      assert all[..i] == sent[..i];
    }
  }

  /** Emitting a segment of the right kind keeps the shape of what was sent. */
  lemma EmitShape(sent: seq<Segment>, s: Segment)
    requires SynFirst(sent) && FinLast(sent)
    requires s.flags.syn <==> sent == []
    requires s.flags.syn || s.flags.fin ==> s.data == []
    requires s.flags.syn ==> !s.flags.fin
    requires s.data != [] || s.flags.fin ==> NoFin(sent)
    ensures SynFirst(sent + [s]) && FinLast(sent + [s])
    ensures NoFin(sent + [s]) <==> (sent == [] || NoFin(sent)) && !s.flags.fin
  {
    assert forall i :: 0 <= i < |sent| ==> (sent + [s])[i] == sent[i];
    if NoFin(sent + [s]) {
      assert forall i :: 0 <= i < |sent| ==> !(sent + [s])[i].flags.fin;
      assert !(sent + [s])[|sent|].flags.fin;
    }
  }

  // ----- one step -----

  /** What one segment emitted in a phase may be, and the phase after it. */
  predicate Emits(c: Conn, s: Segment, c': Conn) {
    var before, after := PhaseOf(c.pcb.state), PhaseOf(c'.pcb.state);
    && s.seqNum == c.pcb.sndNxt && c'.pcb.sndNxt == Wrap(s.seqNum + Length(s))
    && (s.flags.syn <==> before == Waiting)
    && (s.flags.syn ==> s.data == [] && !s.flags.fin && after == Sending)
    && (s.flags.fin ==> s.data == [] && before == Sending && after == Finished)
    && (s.data != [] ==> before == Sending && after == Sending)
    && (!s.flags.syn && !s.flags.fin ==> before != Over && (after == before || (before == Finished && after == Over)))
  }

  /** A message too long for its length to fit 16 bits with the header's: nothing goes out, but numbers are used up. */
  predicate Overlong(c: Conn, v: Event) {
    Accepts(c, v) && |v.message| % 65536 > MAX_DATA
  }

  /** Sequence numbers used up by a step that emits nothing. */
  function Skipped(c: Conn, v: Event): nat {
    if Overlong(c, v) then |v.message| % 65536 else 0
  }

  predicate Silent(c: Conn, c': Conn, skipped: nat) {
    && c'.pcb.sndNxt == Wrap(c.pcb.sndNxt + skipped)
    && (skipped > 0 ==> PhaseOf(c.pcb.state) == Sending)
    && (PhaseOf(c'.pcb.state) == PhaseOf(c.pcb.state) || PhaseOf(c'.pcb.state) == Over)
  }

  predicate Sends(c: Conn, o: Outcome, skipped: nat) {
    if o.out == [] then Silent(c, o.c, skipped) else |o.out| == 1 && Emits(c, o.out[0], o.c) && skipped == 0
  }

  /** The data of the segment emitted, if one was. */
  function DataOf(o: Outcome): seq<byte> {
    if o.out == [] then [] else o.out[0].data
  }

  /** `o` is `c` with one segment emitted. */
  predicate Emitted(c: Conn, flags: Flags, data: seq<byte>, o: Outcome) {
    && |o.out| == 1 && o.out[0].seqNum == c.pcb.sndNxt && o.out[0].flags == flags && o.out[0].data == data
    && o.c.pcb.sndNxt == Wrap(c.pcb.sndNxt + Length(o.out[0]))
    && o.c.pcb.state == c.pcb.state && o.c.live == c.live
  }

  lemma EmitIs(c: Conn, flags: Flags, data: seq<byte>)
    requires |data| <= MAX_DATA
    ensures Emitted(c, flags, data, Emit(c, flags, data))
  {
  }

  lemma AcknowledgeIs(c: Conn, n: int)
    ensures Emitted(c, Ack(), [], Acknowledge(c, n))
  {
  }

  lemma InputSends(c: Conn, s: Arrival)
    requires Streams.Shaped(c.ep)
    ensures Sends(c, Input(c, s), 0) && DataOf(Input(c, s)) == []
    ensures c.live ==> Input(c, s).c.live || Input(c, s).c.pcb.state == Closed
  {
    hide Wrap, Emit, Acknowledge, TakesData, Length;
    WrapSmall(c.pcb.sndNxt);
    forall c': Conn, flags
      ensures Emitted(c', flags, [], Emit(c', flags, []))
    {
      EmitIs(c', flags, []);
    }
    forall c': Conn, n
      ensures Emitted(c', Ack(), [], Acknowledge(c', n))
    {
      AcknowledgeIs(c', n);
    }
  }

  lemma StepSends(c: Conn, v: Event)
    requires Streams.Shaped(c.ep)
    ensures var o := Step(c, v);
            && Sends(c, o, Skipped(c, v))
            && DataOf(o) == (if Accepts(c, v) && !Overlong(c, v) then v.message[..|v.message| % 65536] else [])
            && (c.live && !o.c.live ==> o.c.pcb.state == Closed)
            && (!c.live ==> o.c == c)
  {
    hide Wrap, Input;
    WrapSmall(c.pcb.sndNxt);
    if v.Arrives? {
      InputSends(c, v.s);
    }
  }

  lemma NextSenderOk(h: History, v: Event, isn: u32)
    requires SenderOk(h, isn)
    ensures SenderOk(Next(h, v), isn)
  {
    hide Wrap, SynFirst, FinLast, NoFin, Step, Length, PhaseOf, Overlong;
    StepSends(h.c, v);
    WrapSmall(h.c.pcb.sndNxt);
    var o, h' := Step(h.c, v), Next(h, v);
    if o.out != [] {
      var s := o.out[0];
      assert o.out == [s];
      assert h.sent + o.out == h.sent + [s];
      EmitShape(h.sent, s);
    } else {
      assert h.sent + o.out == h.sent;
    }
    assert SynFirst(h'.sent) && FinLast(h'.sent) && PhaseFits(PhaseOf(h'.c.pcb.state), h'.sent);
    assert !h'.c.live ==> h'.c.pcb.state == Closed;
  }

  lemma {:induction false} RunSenderOk(h: History, events: seq<Event>, isn: u32)
    requires SenderOk(h, isn)
    ensures SenderOk(Run(h, events), isn)
    decreases |events|
  {
    if events != [] {
      NextSenderOk(h, events[0], isn);
      RunSenderOk(Next(h, events[0]), events[1..], isn);
    }
  }

  lemma BegunSenderOk(o: Outcome, isn: u32)
    requires Opening(o, isn)
    ensures SenderOk(Begun(o), isn) && Numbered(Begun(o), isn)
    ensures Begun(o).handed == [] && Bytes(Begun(o).sent) == []
  {
    if o.out != [] {
      var s := o.out[0];
      assert o.out == [s] && s.flags.syn && s.seqNum == isn == 100 && s.data == [];
      assert o.out[..0] == [];
      OneSegment(s);
    }
  }

  lemma OneSegment(s: Segment)
    ensures Total([s]) == Length(s) && Bytes([s]) == s.data
  {
    assert [s] == [] + [s];
    Appended([], s);
  }

  // ----- numbers without a gap -----

  lemma WrapMoves(x: u32, n: nat)
    requires 0 < n < 65536
    ensures Wrap(x + n) != x
  {
  }

  /** One step leaves no gap exactly when it is not an overlong message. */
  lemma NextNumberedIff(h: History, v: Event, isn: u32)
    requires SenderOk(h, isn) && Numbered(h, isn)
    ensures Numbered(Next(h, v), isn) <==> !Overlong(h.c, v)
  {
    hide Wrap, Chained, SynFirst, FinLast, NoFin, Step, Total, Length, PhaseOf;
    StepSends(h.c, v);
    var o := Step(h.c, v);
    WrapSmall(h.c.pcb.sndNxt);
    if o.out != [] {
      var s := o.out[0];
      assert h.sent + o.out == h.sent + [s];
      EmitChains(h.sent, isn, s);
    } else {
      assert h.sent + o.out == h.sent;
      if Overlong(h.c, v) {
        WrapMoves(h.c.pcb.sndNxt, Skipped(h.c, v));
      }
    }
  }

  predicate NoOverlong(h: History, events: seq<Event>)
    requires Streams.Shaped(h.c.ep)
    decreases |events|
  {
    events == [] || (!Overlong(h.c, events[0]) && NoOverlong(Next(h, events[0]), events[1..]))
  }

  predicate AlwaysNumbered(h: History, events: seq<Event>, isn: u32)
    requires Streams.Shaped(h.c.ep)
    decreases |events|
  {
    Numbered(h, isn) && (events == [] || AlwaysNumbered(Next(h, events[0]), events[1..], isn))
  }

  lemma {:induction false} RunNumberedIff(h: History, events: seq<Event>, isn: u32)
    requires SenderOk(h, isn) && Numbered(h, isn)
    ensures AlwaysNumbered(h, events, isn) <==> NoOverlong(h, events)
    ensures NoOverlong(h, events) ==> Numbered(Run(h, events), isn)
    decreases |events|
  {
    hide Numbered, Overlong, Next, SynFirst, FinLast;
    if events != [] {
      NextNumberedIff(h, events[0], isn);
      NextSenderOk(h, events[0], isn);
      if !Overlong(h.c, events[0]) {
        RunNumberedIff(Next(h, events[0]), events[1..], isn);
      } else {
        NotNumbered(Next(h, events[0]), events[1..], isn);
      }
    }
  }

  lemma NotNumbered(h: History, events: seq<Event>, isn: u32)
    requires Streams.Shaped(h.c.ep) && !Numbered(h, isn)
    ensures !AlwaysNumbered(h, events, isn)
  {
  }

  // ----- what was reported as sent -----

  /** A message longer than one segment can carry: its length is cut to 16 bits, or nothing goes out. */
  predicate TooLong(c: Conn, v: Event) {
    Accepts(c, v) && |v.message| > MAX_DATA
  }

  predicate AllFit(h: History, events: seq<Event>)
    requires Streams.Shaped(h.c.ep)
    decreases |events|
  {
    events == [] || (!TooLong(h.c, events[0]) && AllFit(Next(h, events[0]), events[1..]))
  }

  lemma {:induction false} FitIsNotOverlong(h: History, events: seq<Event>)
    requires Streams.Shaped(h.c.ep) && AllFit(h, events)
    ensures NoOverlong(h, events)
    decreases |events|
  {
    hide Next;
    if events != [] {
      FitIsNotOverlong(Next(h, events[0]), events[1..]);
    }
  }

  /** What went out is never more than what was reported as sent, and as much only if it is the same. */
  predicate Reported(h: History) {
    |Bytes(h.sent)| <= |h.handed| && (|Bytes(h.sent)| == |h.handed| ==> Bytes(h.sent) == h.handed)
  }

  lemma NextReportedIff(h: History, v: Event)
    requires Streams.Shaped(h.c.ep) && Reported(h)
    ensures Reported(Next(h, v))
    ensures Bytes(Next(h, v).sent) == Next(h, v).handed <==> Bytes(h.sent) == h.handed && !TooLong(h.c, v)
  {
    hide Wrap, Step, Bytes, Total, Length, PhaseOf, Emits, Silent;
    StepSends(h.c, v);
    var o, h' := Step(h.c, v), Next(h, v);
    if o.out != [] {
      var s := o.out[0];
      assert h.sent + o.out == h.sent + [s];
      Appended(h.sent, s);
    } else {
      assert h.sent + o.out == h.sent;
    }
    assert Bytes(h'.sent) == Bytes(h.sent) + DataOf(o);
    assert !Accepts(h.c, v) ==> Bytes(h'.sent) == Bytes(h.sent);
    if Accepts(h.c, v) {
      CutMessage(v.message);
    }
  }

  lemma CutMessage(m: seq<byte>)
    ensures |m| % 65536 <= |m| && |m[..|m| % 65536]| == |m| % 65536
    ensures |m| > MAX_DATA ==> |m| % 65536 > MAX_DATA || |m| % 65536 < |m|
    ensures |m| <= MAX_DATA ==> m[..|m| % 65536] == m && |m| % 65536 <= MAX_DATA
  {
  }

  lemma {:induction false} RunReportedIff(h: History, events: seq<Event>)
    requires Streams.Shaped(h.c.ep) && Reported(h)
    ensures Bytes(Run(h, events).sent) == Run(h, events).handed <==> Bytes(h.sent) == h.handed && AllFit(h, events)
    ensures |Bytes(Run(h, events).sent)| <= |Run(h, events).handed|
    decreases |events|
  {
    hide Next, TooLong, Bytes;
    if events != [] {
      NextReportedIff(h, events[0]);
      RunReportedIff(Next(h, events[0]), events[1..]);
    }
  }

  // ----- the main results -----

  /**
    Sender safety over a whole connection, whatever is received, sent and closed in
    whatever order.  The SYN comes first and only once, at most one FIN is sent, and nothing
    but bare acknowledgements follows it.  Sequence numbers never leave a gap if and only if no
    message is overlong; and the data sent is what the send calls reported as sent if
    and only if every message taken has at most 65515 bytes.
   */
  lemma SenderSafety(o: Outcome, isn: u32, events: seq<Event>)
    requires Opening(o, isn)
    ensures Streams.Shaped(Begun(o).c.ep)
    ensures var h := Run(Begun(o), events);
            && SynFirst(h.sent) && FinLast(h.sent) && (h.sent != [] ==> h.sent[0].seqNum == isn)
            && (AlwaysNumbered(Begun(o), events, isn) <==> NoOverlong(Begun(o), events))
            && (Bytes(h.sent) == h.handed <==> AllFit(Begun(o), events))
            && (AllFit(Begun(o), events) ==> NoOverlong(Begun(o), events))
  {
    hide Wrap, Run, Chained, SynFirst, FinLast, NoFin, Total, Bytes, Length, Opening, PhaseOf;
    BegunSenderOk(o, isn);
    RunSenderOk(Begun(o), events, isn);
    RunNumberedIff(Begun(o), events, isn);
    RunReportedIff(Begun(o), events);
    if AllFit(Begun(o), events) {
      FitIsNotOverlong(Begun(o), events);
    }
  }

  /** Without overlong messages each segment starts where the one before it ended. */
  lemma NumbersFollow(o: Outcome, isn: u32, events: seq<Event>)
    requires Opening(o, isn) && Streams.Shaped(Begun(o).c.ep) && NoOverlong(Begun(o), events)
    ensures var h := Run(Begun(o), events);
            && (forall i :: 0 <= i < |h.sent| - 1 ==> h.sent[i + 1].seqNum == Wrap(h.sent[i].seqNum + Length(h.sent[i])))
            && (h.sent != [] ==> h.c.pcb.sndNxt == Wrap(h.sent[|h.sent| - 1].seqNum + Length(h.sent[|h.sent| - 1])))
  {
    hide Wrap, Run, Chained, SynFirst, FinLast, NoFin, Total, Bytes, Length, Opening, PhaseOf;
    BegunSenderOk(o, isn);
    RunNumberedIff(Begun(o), events, isn);
    ChainMeaning(Run(Begun(o), events).sent, isn);
  }

  /** A connection opened by a peer, ready to send. */
  function HandshakeOn(port: u16, irs: u32): seq<Event> {
    [Arrives(Arrival(1, 2000, port, irs, Syn(), [])), Arrives(Arrival(1, 2000, port, Wrap(irs + 1), Ack(), []))]
  }

  /** The connection after that handshake. */
  function Shaken(port: u16, irs: u32): (h: History)
    ensures Streams.Shaped(h.c.ep)
  {
    var p := FreshPcb().(localPort := port, remoteIp := 1, remotePort := 2000, state := Established, sndNxt := 1, rcvNxt := Wrap(irs + 1));
    var s := Segment(port, 2000, 0, Wrap(irs + 1), SynAck(), 4096, []);
    History(Conn(p, true, Streams.Opened()), [s], [], true, irs, [], false, [], 0, [], [], [])
  }

  lemma AfterHandshake(port: u16, irs: u32, rest: seq<Event>)
    ensures Streams.Shaped(Begun(ListenOn(port)).c.ep)
    ensures Run(Begun(ListenOn(port)), HandshakeOn(port, irs) + rest) == Run(Shaken(port, irs), rest)
  {
    hide Run, Total, Bytes;
    var h0, shake := Begun(ListenOn(port)), HandshakeOn(port, irs);
    var h1 := Next(h0, shake[0]);
    assert h1.sent == [Segment(port, 2000, 0, Wrap(irs + 1), SynAck(), 4096, [])];
    assert Next(h1, shake[1]) == Shaken(port, irs);
    RunCons(h1, shake[1], rest);
    RunCons(h0, shake[0], [shake[1]] + rest);
    assert shake + rest == [shake[0]] + ([shake[1]] + rest);
  }

  lemma TwoEvents(h: History, v: Event, w: Event)
    requires Streams.Shaped(h.c.ep)
    ensures Run(h, [v, w]) == Next(Next(h, v), w)
  {
    hide Next;
    assert [v, w] == [v] + [w] && [w] == [w] + [];
    RunCons(h, v, [w]);
    RunCons(Next(h, v), w, []);
    RunNone(Next(Next(h, v), w));
  }

  /**
    A send of 65546 bytes and then one more: both calls report all their bytes as sent, but the
    first puts 10 on the wire, so what the peer gets is not a prefix of what was reported.
   */
  lemma LongMessageIsCut(port: u16, irs: u32, m: seq<byte>, x: byte)
    requires |m| == 65546 && m[10] != x
    ensures Streams.Shaped(Begun(ListenOn(port)).c.ep)
    ensures var h := Run(Begun(ListenOn(port)), HandshakeOn(port, irs) + [Sendto(m), Sendto([x])]);
            && h.handed == m + [x]
            && Bytes(h.sent) == m[..10] + [x]
            && Bytes(h.sent) != h.handed[..11]
  {
    hide Wrap, Bytes, Total, Length, Run, HandshakeOn;
    var h2 := Shaken(port, irs);
    var h3 := Next(h2, Sendto(m));
    var h4 := Next(h3, Sendto([x]));
    var s2, s3 := SegmentOf(h2.c.pcb, PshAck(), m[..10]), SegmentOf(h3.c.pcb, PshAck(), [x]);
    assert h3.sent == h2.sent + [s2] && h3.c.live && h3.c.pcb.state == Established;
    assert [x][..1] == [x];
    assert h4.sent == h3.sent + [s3];
    OneSegment(h2.sent[0]);
    Appended(h2.sent, s2);
    Appended(h3.sent, s3);
    AfterHandshake(port, irs, [Sendto(m), Sendto([x])]);
    TwoEvents(h2, Sendto(m), Sendto([x]));
    assert h4.handed[..11][10] == m[10];
    assert (m[..10] + [x])[10] == x;
  }

  lemma RunCons(h: History, v: Event, rest: seq<Event>)
    requires Streams.Shaped(h.c.ep)
    ensures Run(h, [v] + rest) == Run(Next(h, v), rest)
  {
    hide Next;
    assert ([v] + rest)[1..] == rest;
  }

  lemma RunNone(h: History)
    requires Streams.Shaped(h.c.ep)
    ensures Run(h, []) == h
  {
  }

  /** A chain has no gap. */
  lemma ChainMeaning(sent: seq<Segment>, isn: u32)
    requires Chained(sent, isn)
    ensures forall i :: 0 <= i < |sent| - 1 ==> sent[i + 1].seqNum == Wrap(sent[i].seqNum + Length(sent[i]))
    ensures sent != [] ==> sent[0].seqNum == isn && Wrap(isn + Total(sent)) == Wrap(sent[|sent| - 1].seqNum + Length(sent[|sent| - 1]))
  {
    hide Wrap, Length, Chained;
    forall i | 0 <= i < |sent| - 1
      ensures sent[i + 1].seqNum == Wrap(sent[i].seqNum + Length(sent[i]))
    {
      TotalStep(sent, isn, i);
      ChainAt(sent, isn, i + 1);
    }
    if sent != [] {
      TotalStep(sent, isn, |sent| - 1);
      assert sent[..|sent|] == sent;
      ChainAt(sent, isn, 0);
      assert sent[..0] == [];
      WrapSmall(isn);
    }
  }

  lemma ChainAt(sent: seq<Segment>, isn: u32, i: nat)
    requires Chained(sent, isn) && i < |sent|
    ensures sent[i].seqNum == Wrap(isn + Total(sent[..i]))
  {
  }

  lemma TotalStep(sent: seq<Segment>, isn: u32, i: nat)
    requires Chained(sent, isn) && i < |sent|
    ensures Wrap(sent[i].seqNum + Length(sent[i])) == Wrap(isn + Total(sent[..i + 1]))
  {
    hide Wrap, Length, Total, Bytes, Chained;
    ChainAt(sent, isn, i);
    assert sent[..i + 1] == sent[..i] + [sent[i]];
    Appended(sent[..i], sent[i]);
    WrapTwice(isn + Total(sent[..i]), Length(sent[i]));
  }

  /** Without overlong messages a data segment carries the bytes at the offset its sequence number says. */
  lemma DataIsWhereItSays(o: Outcome, isn: u32, events: seq<Event>, i: nat)
    requires Opening(o, isn) && Streams.Shaped(Begun(o).c.ep) && NoOverlong(Begun(o), events)
    requires i < |Run(Begun(o), events).sent| && Run(Begun(o), events).sent[i].data != []
    ensures var h := Run(Begun(o), events);
            var s, k, all := h.sent[i], |Bytes(h.sent[..i])|, Bytes(h.sent);
            && s.seqNum == Wrap(isn + 1 + k)
            && k + |s.data| <= |all| && all[k .. k + |s.data|] == s.data
  {
    hide Wrap, Run, Chained, SynFirst, FinLast, Total, Bytes, Length, Opening, PhaseOf;
    BegunSenderOk(o, isn);
    RunSenderOk(Begun(o), events, isn);
    RunNumberedIff(Begun(o), events, isn);
    var h := Run(Begun(o), events);
    ChainAt(h.sent, isn, i);
    NoFinBeforeData(h.sent, i);
    TotalBeforeFin(h.sent, i);
    BytesAt(h.sent, i);
  }

  predicate NoFinBefore(sent: seq<Segment>, n: nat)
    requires n <= |sent|
  {
    forall i :: 0 <= i < n ==> !sent[i].flags.fin
  }

  lemma NoFinBeforeData(sent: seq<Segment>, i: nat)
    requires i < |sent| && FinLast(sent) && SynFirst(sent) && sent[i].data != []
    ensures i > 0 && NoFinBefore(sent, i)
  {
  }

  lemma {:induction false} TotalBeforeFin(sent: seq<Segment>, n: nat)
    requires n <= |sent| && SynFirst(sent) && NoFinBefore(sent, n)
    ensures Total(sent[..n]) == |Bytes(sent[..n])| + (if n > 0 then 1 else 0)
  {
    hide Total, Bytes;
    if n == 0 {
      assert sent[..0] == [];
      NothingSent();
    } else {
      TotalBeforeFin(sent, n - 1);
      assert sent[..n] == sent[..n - 1] + [sent[n - 1]];
      Appended(sent[..n - 1], sent[n - 1]);
    }
  }

  lemma NothingSent()
    ensures Total([]) == 0 && Bytes([]) == []
  {
  }

  lemma {:induction false} BytesAt(sent: seq<Segment>, i: nat)
    requires i < |sent|
    ensures var k := |Bytes(sent[..i])|;
            k + |sent[i].data| <= |Bytes(sent)| && Bytes(sent)[k .. k + |sent[i].data|] == sent[i].data
  {
    var n := |sent| - 1;
    if i < n {
      BytesAt(sent[..n], i);
      assert sent[..n][..i] == sent[..i];
    }
  }

  // ----- when a connection is established -----

  /** Entering ESTABLISHED takes an acknowledgement from the peer, and our SYN was sent before. */
  lemma EstablishedAfterHandshake(o: Outcome, isn: u32, events: seq<Event>, v: Event)
    requires Opening(o, isn)
    ensures var h := Run(Begun(o), events);
            h.c.pcb.state != Established && Next(h, v).c.pcb.state == Established ==>
              && h.sent != [] && h.sent[0].flags.syn && h.sent[0].seqNum == isn
              && Heard(h.c, v) && v.s.flags.ack
  {
    hide Wrap, Run;
    BegunSenderOk(o, isn);
    RunSenderOk(Begun(o), events, isn);
    var h := Run(Begun(o), events);
    if h.c.pcb.state != Established && Next(h, v).c.pcb.state == Established {
      EnteringEstablished(h.c, v);
    }
  }

  lemma EnteringEstablished(c: Conn, v: Event)
    requires Streams.Shaped(c.ep)
    requires c.pcb.state != Established && Step(c, v).c.pcb.state == Established
    ensures c.pcb.state in {SynSent, SynReceived} && Heard(c, v) && v.s.flags.ack
  {
    hide Wrap;
  }
}
