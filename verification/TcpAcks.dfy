/**
  What a connection answers: which events emit a segment and of what kind, the acknowledgement
  it carries, the states it goes through, and undisturbed conversations of two ends.
 */
module TcpAcks {
  import opened Words
  import Rings
  import Streams
  import opened Tcp
  import TcpSender
  import TcpReceiver

  // ----- what is emitted -----

  /** Whether the event closes a connection that has something to say about it. */
  predicate SaysGoodbye(c: Conn, v: Event) {
    c.live && v.CloseIt? && c.pcb.state in {Established, CloseWait}
  }

  /** Whether the event sends a message. */
  predicate SendsData(c: Conn, v: Event) {
    Accepts(c, v) && !TcpSender.Overlong(c, v)
  }

  /** The acknowledgement, window and ports are those of the control block after the step. */
  predicate Stamped(s: Segment, p: Pcb) {
    s.ackNum == p.rcvNxt && s.window == p.window && s.srcPort == p.localPort && s.destPort == p.remotePort
  }

  predicate OnlySegment(o: Outcome, flags: Flags, data: seq<byte>) {
    |o.out| == 1 && o.out[0].flags == flags && o.out[0].data == data && Stamped(o.out[0], o.c.pcb)
  }

  lemma EmitStamped(c: Conn, flags: Flags, data: seq<byte>)
    requires |data| <= MAX_DATA
    ensures OnlySegment(Emit(c, flags, data), flags, data)
  {
  }

  /**
    Every step emits at most one segment, and which: SYN|ACK where a listener hears a SYN, ACK where the peer's
    SYN|ACK, data or FIN is taken, the data of a message, FIN|ACK on closing, and nothing otherwise.
    What it carries is the state after the step.
   */
  lemma StepAnswers(c: Conn, v: Event)
    requires Streams.Shaped(c.ep)
    ensures var o := Step(c, v);
            if Synchronises(c, v) then OnlySegment(o, if c.pcb.state == Listen then SynAck() else Ack(), [])
            else if TakesPayload(c, v) || TakesFin(c, v) then OnlySegment(o, Ack(), [])
            else if SendsData(c, v) then OnlySegment(o, PshAck(), v.message[..|v.message| % 65536])
            else if SaysGoodbye(c, v) then OnlySegment(o, FinAck(), [])
            else o.out == []
  {
    hide Wrap, Emit, Input, OnlySegment, Streams.Push, Streams.Receive, Streams.Continue, TakesData;
    if v.Arrives? {
      InputAnswers(c, v.s);
      TakesNotIn(c, v);
    } else if SendsData(c, v) {
      EmitStamped(c, PshAck(), v.message[..|v.message| % 65536]);
    } else if Accepts(c, v) {
      OverlongSilent(c, v);
    } else if v.CloseIt? {
      CloseAnswers(c);
    }
  }

  lemma TakesNotIn(c: Conn, v: Event)
    requires v.Arrives?
    ensures !Accepts(c, v) && (TakesData(c, v.s) ==> c.pcb.state == Established && !v.s.flags.fin)
  {
  }

  lemma CloseAnswers(c: Conn)
    ensures var o := Close(c);
            if c.pcb.state in {Established, CloseWait} then OnlySegment(o, FinAck(), []) else o.out == []
  {
    hide Wrap;
  }

  lemma InputAnswers(c: Conn, s: Arrival)
    requires Streams.Shaped(c.ep)
    ensures var o, state, f := Input(c, s), c.pcb.state, s.flags;
            if state == Listen && f.syn then OnlySegment(o, SynAck(), [])
            else if (state == SynSent && f.syn && f.ack) || TakesData(c, s) || (state in {Established, FinWait1, FinWait2} && f.fin)
            then OnlySegment(o, Ack(), [])
            else o.out == []
  {
    hide Wrap, Emit, Streams.Push, TakesData;
    forall c': Conn, flags
      ensures OnlySegment(Emit(c', flags, []), flags, [])
    {
      EmitStamped(c', flags, []);
    }
    forall c': Conn, flags
      ensures SameButNumbers(c', Emit(c', flags, []).c)
    {
      EmitKeeps(c', flags);
    }
    if TakesData(c, s) {
      TakesNotIn(c, Arrives(s));
    }
  }

  predicate SameButNumbers(c: Conn, c': Conn) {
    c' == c.(pcb := c.pcb.(sndNxt := c'.pcb.sndNxt))
  }

  lemma EmitKeeps(c: Conn, flags: Flags)
    ensures SameButNumbers(c, Emit(c, flags, []).c)
  {
  }

  lemma OverlongSilent(c: Conn, v: Event)
    requires TcpSender.Overlong(c, v)
    ensures Send(c, v.message).out == []
  {
  }

  /** Every acknowledgement carries `rcv_nxt` as it is after the step. */
  lemma AcksAreFresh(c: Conn, v: Event)
    requires Streams.Shaped(c.ep)
    ensures forall s :: s in Step(c, v).out ==> Stamped(s, Step(c, v).c.pcb)
  {
    hide Step, Stamped, Wrap;
    StepAnswers(c, v);
  }

  /** So, as long as what is taken is in order, it counts the bytes accepted so far, and a FIN. */
  lemma AckIsExpected(h: History, v: Event)
    requires TcpReceiver.Tracks(h) && TcpReceiver.Conserved(h) && TcpReceiver.InOrderAt(h, v)
    ensures forall s :: s in Step(h.c, v).out && s.flags.ack ==> s.ackNum == TcpReceiver.Expected(Next(h, v))
  {
    hide Step, Wrap, TcpReceiver.Tracks, TcpReceiver.Expected, TakesData;
    TcpReceiver.TracksIs(h);
    TcpReceiver.NextConservedIff(h, v);
    StepAnswers(h.c, v);
    TcpReceiver.TracksIs(Next(h, v));
    AckIsSynced(h, v);
  }

  lemma AckIsSynced(h: History, v: Event)
    requires TcpReceiver.Tracks(h)
    ensures forall s :: s in Step(h.c, v).out && s.flags.ack ==> Next(h, v).synced
  {
    hide Step, Wrap, TcpSender.Overlong;
    StepAnswers(h.c, v);
  }

  lemma {:induction false} RunConserved(h: History, events: seq<Event>)
    requires TcpReceiver.Tracks(h) && TcpReceiver.Conserved(h)
    ensures Streams.Shaped(h.c.ep)
    ensures TcpReceiver.InOrder(h, events) ==> TcpReceiver.Tracks(Run(h, events)) && TcpReceiver.Conserved(Run(h, events))
    decreases |events|
  {
    hide TcpReceiver.Tracks, TcpReceiver.Conserved, TcpReceiver.InOrderAt, Next;
    TcpReceiver.TracksIs(h);
    if events != [] {
      TcpReceiver.NextConservedIff(h, events[0]);
      if TcpReceiver.InOrderAt(h, events[0]) {
        RunConserved(Next(h, events[0]), events[1..]);
      }
    }
  }

  /** Over any run in which what is taken is in order, and a step more: the acknowledgements count what was accepted. */
  lemma AcksCountBytes(o: Outcome, isn: u32, events: seq<Event>, v: Event)
    requires Opening(o, isn) && Streams.Shaped(Begun(o).c.ep) && TcpReceiver.InOrder(Begun(o), events)
    ensures var h := Run(Begun(o), events);
            TcpReceiver.InOrderAt(h, v) ==>
              forall s :: s in Step(h.c, v).out && s.flags.ack ==> s.ackNum == TcpReceiver.Expected(Next(h, v))
  {
    hide Step, Run, Opening, TcpReceiver.Tracks, TcpReceiver.Conserved, TcpReceiver.InOrderAt, TcpReceiver.Expected, Next;
    TcpReceiver.BegunTracks(o, isn);
    RunConserved(Begun(o), events);
    var h := Run(Begun(o), events);
    if TcpReceiver.InOrderAt(h, v) {
      AckIsExpected(h, v);
    }
  }

  // ----- states -----

  /**
    The states as section 3.3.2 of RFC 9293 draws them, but for what the code leaves out: nobody checks which number
    an acknowledgement carries, and CLOSING and TIME-WAIT are never left.
   */
  function HeardNext(state: State, f: Flags): State {
    match state
    case Listen => if f.syn then SynReceived else Listen
    case SynSent => if f.syn && f.ack then Established else SynSent
    case SynReceived => if f.ack then Established else SynReceived
    case Established => if f.fin then CloseWait else Established
    case FinWait1 => if f.fin then (if f.ack then TimeWait else Closing) else if f.ack then FinWait2 else FinWait1
    case FinWait2 => if f.fin then Closed else FinWait2
    case LastAck => if f.ack then Closed else LastAck
    case CloseWait => CloseWait
    case Closing => Closing
    case TimeWait => TimeWait
    case Closed => Closed
  }

  function ClosedNext(state: State): State {
    match state
    case Established => FinWait1
    case CloseWait => LastAck
    case _ => Closed
  }

  /** A step leads to the state of that diagram, and frees the block where FIN-WAIT-2 or LAST-ACK end. */
  lemma StepStates(c: Conn, v: Event)
    requires Streams.Shaped(c.ep)
    ensures var c' := Step(c, v).c;
            && c'.pcb.state == (if Heard(c, v) then HeardNext(c.pcb.state, v.s.flags)
                                else if c.live && v.CloseIt? then ClosedNext(c.pcb.state) else c.pcb.state)
            && (c'.live <==> c.live && !(Heard(c, v) && c.pcb.state in {FinWait2, LastAck} && c'.pcb.state == Closed))
            && c'.pcb.window == c.pcb.window
            && (if c.live && v.Bind? then c' == c.(pcb := c.pcb.(localIp := v.ip, localPort := v.port))
                else c'.pcb.localIp == c.pcb.localIp && c'.pcb.localPort == c.pcb.localPort)
            && (if Heard(c, v) && c.pcb.state == Listen && v.s.flags.syn
                then c'.pcb.remoteIp == v.s.srcIp && c'.pcb.remotePort == v.s.srcPort
                else c'.pcb.remoteIp == c.pcb.remoteIp && c'.pcb.remotePort == c.pcb.remotePort)
  {
    hide Wrap, Input, Streams.Push, Streams.Receive, Streams.Continue, TakesData, Length, HeardNext;
    if v.Arrives? {
      InputStates(c, v.s);
    }
  }

  /**
    A segment is listened to only if it is for the port and, but for a listener, from the
    peer's address and port; anything else changes nothing and is not answered.
   */
  lemma StrangersAreIgnored(c: Conn, s: Arrival)
    requires Streams.Shaped(c.ep)
    requires s.destPort != c.pcb.localPort
             || (c.pcb.state != Listen && (s.srcIp != c.pcb.remoteIp || s.srcPort != c.pcb.remotePort))
    ensures Step(c, Arrives(s)) == Outcome(c, [])
  {
  }

  lemma InputStates(c: Conn, s: Arrival)
    requires Streams.Shaped(c.ep)
    ensures var c' := Input(c, s).c;
            && c'.pcb.state == HeardNext(c.pcb.state, s.flags)
            && (c.live ==> (c'.live <==> !(c.pcb.state in {FinWait2, LastAck} && c'.pcb.state == Closed)))
            && c'.pcb.window == c.pcb.window && c'.pcb.localIp == c.pcb.localIp && c'.pcb.localPort == c.pcb.localPort
            && (if c.pcb.state == Listen && s.flags.syn
                then c'.pcb.remoteIp == s.srcIp && c'.pcb.remotePort == s.srcPort
                else c'.pcb.remoteIp == c.pcb.remoteIp && c'.pcb.remotePort == c.pcb.remotePort)
  {
    hide Wrap, Emit, Streams.Push, TakesData, Length;
    forall d: Conn, flags
      ensures SameButNumbers(d, Emit(d, flags, []).c)
    {
      EmitKeeps(d, flags);
    }
    if TakesData(c, s) {
      TakesNotIn(c, Arrives(s));
    }
  }

  // ----- undisturbed conversations -----

  /** A segment as it arrives from address `ip`. */
  function Carry(s: Segment, ip: u32): Arrival {
    Arrival(ip, s.srcPort, s.destPort, s.seqNum, s.flags, s.data)
  }

  /** What `c` does when the one segment that `o` emitted arrives. */
  function Hears(c: Conn, o: Outcome, ip: u32): (o': Outcome)
    requires Streams.Shaped(c.ep)
    ensures Streams.Shaped(o'.c.ep)
  {
    if o.out == [] then Outcome(c, []) else Step(c, Arrives(Carry(o.out[0], ip)))
  }

  /** `a` at address `ipA` and `b` at `ipB` are partners, each expecting what the other sends next. */
  predicate InSync(a: Conn, b: Conn, ipA: u32, ipB: u32) {
    && a.live && b.live && Streams.Shaped(a.ep) && Streams.Shaped(b.ep)
    && a.pcb.state == Established && b.pcb.state == Established
    && a.pcb.localPort == b.pcb.remotePort && a.pcb.remotePort == b.pcb.localPort
    && a.pcb.remoteIp == ipB && b.pcb.remoteIp == ipA
    && a.pcb.rcvNxt == b.pcb.sndNxt && b.pcb.rcvNxt == a.pcb.sndNxt
  }

  /**
    The handshake: the SYN of a connecting end, the SYN|ACK of a listening one and the ACK make both
    established and in sync; each acknowledgement is the number the other side sends next.
   */
  lemma HandshakeSyncs(ipA: u32, portA: u16, ipB: u32, portB: u16)
    ensures var a0, b0 := Connect(ipA, portA, ipB, portB), ListenOn(portB);
            && Streams.Shaped(a0.c.ep) && Streams.Shaped(b0.c.ep)
            && var b1 := Hears(b0.c, a0, ipA);
               var a1 := Hears(a0.c, b1, ipB);
               var b2 := Hears(b1.c, a1, ipA);
               && InSync(a1.c, b2.c, ipA, ipB)
               && |a0.out| == |b1.out| == |a1.out| == 1 && b2.out == []
               && b1.out[0].ackNum == a0.c.pcb.sndNxt && a1.out[0].ackNum == b1.c.pcb.sndNxt
  {
  }

  /**
    A message between two ends in sync: if it fits it is stored behind what was there, the acknowledgement is the
    number the sender has reached, and they are in sync again; otherwise nothing is stored or answered.
   */
  lemma MessageArrives(a: Conn, b: Conn, ipA: u32, ipB: u32, q: seq<byte>, m: seq<byte>)
    requires InSync(a, b, ipA, ipB) && Streams.StandsFor(b.ep, q) && 0 < |m| <= MAX_DATA
    ensures var a1 := Step(a, Sendto(m));
            var b1 := Hears(b, a1, ipA);
            var a2 := Hears(a1.c, b1, ipB);
            if |q| + |m| <= Rings.SIZE
            then Streams.StandsFor(b1.c.ep, q + m) && |b1.out| == 1 && b1.out[0].ackNum == a1.c.pcb.sndNxt
                 && a2 == Outcome(a1.c, []) && InSync(a2.c, b1.c, ipA, ipB)
            else b1 == Outcome(b, [])
  {
    hide Wrap, Step, Streams.StandsFor, Streams.Push, Streams.Shaped;
    Streams.Basics(b.ep, q);
    Streams.PushStandsFor(b.ep, q, m);
    SendIs(a, m);
    var a1 := Step(a, Sendto(m));
    TakeIs(b, Carry(a1.out[0], ipA));
    if |q| + |m| <= Rings.SIZE {
      var b1 := Hears(b, a1, ipA);
      AckIgnored(a1.c, Carry(b1.out[0], ipB));
    }
  }

  lemma SendIs(a: Conn, m: seq<byte>)
    requires a.live && a.pcb.state == Established && 0 < |m| <= MAX_DATA && Streams.Shaped(a.ep)
    ensures Step(a, Sendto(m)) == Outcome(a.(pcb := a.pcb.(sndNxt := Wrap(a.pcb.sndNxt + |m|))), [SegmentOf(a.pcb, PshAck(), m)])
  {
    hide Wrap;
    assert |m| % 65536 == |m| && m[..|m|] == m;
  }

  lemma TakeIs(b: Conn, s: Arrival)
    requires b.live && b.pcb.state == Established && Streams.Shaped(b.ep) && Matches(b.pcb, s) && !s.flags.fin && s.payload != []
    ensures Step(b, Arrives(s)) ==
            if b.ep.ring.len + |s.payload| > Rings.SIZE then Outcome(b, [])
            else
              var p := b.pcb.(rcvNxt := Wrap(s.seqNum + |s.payload|));
              Outcome(b.(pcb := p, ep := Streams.Push(b.ep, s.payload)), [SegmentOf(p, Ack(), [])])
  {
    hide Wrap, Streams.Push;
    WrapSmall(b.pcb.sndNxt);
  }

  /** A bare acknowledgement changes nothing in an established connection. */
  lemma AckIgnored(a: Conn, s: Arrival)
    requires a.live && a.pcb.state == Established && Streams.Shaped(a.ep) && !s.flags.fin && s.payload == []
    ensures Step(a, Arrives(s)) == Outcome(a, [])
  {
    hide Wrap, Streams.Push;
  }

  /** The first half of an orderly close: a FIN and its acknowledgement. */
  lemma HalfClose(a: Conn, b: Conn, ipA: u32, ipB: u32)
    requires InSync(a, b, ipA, ipB)
    ensures var a1 := Step(a, CloseIt);
            var b1 := Hears(b, a1, ipA);
            var a2 := Hears(a1.c, b1, ipB);
            && |a1.out| == |b1.out| == 1 && a2.out == [] && a1.c.pcb.state == FinWait1
            && b1.out[0].ackNum == a1.c.pcb.sndNxt
            && a2.c == a1.c.(pcb := a1.c.pcb.(state := FinWait2)) && a2.c == a.(pcb := a.pcb.(state := FinWait2, sndNxt := a1.c.pcb.sndNxt))
            && b1.c == b.(pcb := b.pcb.(state := CloseWait, rcvNxt := a1.c.pcb.sndNxt))
  {
    hide Streams.PushAll, Streams.Shaped, Wrap;
    WrapSmall(b.pcb.sndNxt);
  }

  /** The other half: the last FIN, and the acknowledgement that frees the second end. */
  lemma LastClose(a: Conn, b: Conn, ipA: u32, ipB: u32)
    requires a.live && b.live && Streams.Shaped(a.ep) && Streams.Shaped(b.ep)
    requires a.pcb.state == FinWait2 && b.pcb.state == CloseWait
    requires a.pcb.localPort == b.pcb.remotePort && a.pcb.remotePort == b.pcb.localPort && a.pcb.remoteIp == ipB && b.pcb.remoteIp == ipA
    requires a.pcb.rcvNxt == b.pcb.sndNxt
    ensures var b2 := Step(b, CloseIt);
            var a3 := Hears(a, b2, ipB);
            var b3 := Hears(b2.c, a3, ipA);
            && |b2.out| == |a3.out| == 1 && b2.c.pcb.state == LastAck && a3.out[0].ackNum == b2.c.pcb.sndNxt
            && !a3.c.live && !b3.c.live && a3.c.pcb.state == Closed && b3.c.pcb.state == Closed && a3.c.ep == a.ep && b3.c.ep == b.ep
  {
    hide Streams.PushAll, Streams.Shaped, Wrap;
  }

  /** The four segments of an orderly close, begun by `a`: both ends are freed. */
  lemma OrderlyClose(a: Conn, b: Conn, ipA: u32, ipB: u32)
    requires InSync(a, b, ipA, ipB)
    ensures var a1 := Step(a, CloseIt);
            var b1 := Hears(b, a1, ipA);
            var a2 := Hears(a1.c, b1, ipB);
            var b2 := Step(b1.c, CloseIt);
            var a3 := Hears(a2.c, b2, ipB);
            var b3 := Hears(b2.c, a3, ipA);
            && a1.c.pcb.state == FinWait1 && b1.c.pcb.state == CloseWait && a2.c.pcb.state == FinWait2 && b2.c.pcb.state == LastAck
            && !a3.c.live && !b3.c.live && a3.c.pcb.state == Closed && b3.c.pcb.state == Closed
            && |a1.out| == |b1.out| == |b2.out| == |a3.out| == 1
            && b1.out[0].ackNum == a1.c.pcb.sndNxt && a3.out[0].ackNum == b2.c.pcb.sndNxt
            && b3.c.ep == b.ep && a3.c.ep == a.ep
  {
    hide Step, Hears, Streams.Shaped, Wrap;
    HalfClose(a, b, ipA, ipB);
    var a1 := Step(a, CloseIt);
    var b1 := Hears(b, a1, ipA);
    LastClose(Hears(a1.c, b1, ipB).c, b1.c, ipA, ipB);
  }

  // ----- a whole conversation -----

  /** The messages one after the other, each acknowledged before the next. */
  function Talk(a: Conn, b: Conn, ipA: u32, ipB: u32, messages: seq<seq<byte>>): (r: (Conn, Conn))
    requires Streams.Shaped(a.ep) && Streams.Shaped(b.ep)
    ensures Streams.Shaped(r.0.ep) && Streams.Shaped(r.1.ep)
    decreases |messages|
  {
    if messages == [] then (a, b)
    else
      var a1 := Step(a, Sendto(messages[0]));
      var b1 := Hears(b, a1, ipA);
      Talk(Hears(a1.c, b1, ipB).c, b1.c, ipA, ipB, messages[1..])
  }

  function Joined(messages: seq<seq<byte>>): seq<byte> {
    if messages == [] then [] else messages[0] + Joined(messages[1..])
  }

  /** Messages that fit into the ring together all arrive, in order, and the two ends stay in sync. */
  lemma {:induction false} TalkArrives(a: Conn, b: Conn, ipA: u32, ipB: u32, q: seq<byte>, messages: seq<seq<byte>>)
    requires InSync(a, b, ipA, ipB) && Streams.StandsFor(b.ep, q) && |q| + |Joined(messages)| <= Rings.SIZE
    requires forall k :: 0 <= k < |messages| ==> messages[k] != []
    ensures Streams.Shaped(a.ep) && Streams.Shaped(b.ep)
    ensures var r := Talk(a, b, ipA, ipB, messages);
            InSync(r.0, r.1, ipA, ipB) && Streams.StandsFor(r.1.ep, q + Joined(messages))
    decreases |messages|
  {
    hide Step, Hears, Streams.StandsFor, Streams.Shaped;
    SyncShaped(a, b, ipA, ipB);
    if messages == [] {
      assert q + Joined(messages) == q;
    } else {
      var m := messages[0];
      MessageArrives(a, b, ipA, ipB, q, m);
      var a1 := Step(a, Sendto(m));
      var b1 := Hears(b, a1, ipA);
      TalkArrives(Hears(a1.c, b1, ipB).c, b1.c, ipA, ipB, q + m, messages[1..]);
      assert q + m + Joined(messages[1..]) == q + Joined(messages);
    }
  }

  lemma SyncShaped(a: Conn, b: Conn, ipA: u32, ipB: u32)
    requires InSync(a, b, ipA, ipB)
    ensures Streams.Shaped(a.ep) && Streams.Shaped(b.ep)
  {
  }
}
