/**
  One TCP connection: the control block, the segments it emits, and the stream socket
  it feeds.
 */
module Tcp {
  import opened Words
  import Rings
  import Streams
  import Datagrams

  datatype State =
    | Closed | Listen | SynSent | SynReceived | Established | FinWait1 | FinWait2 | CloseWait | Closing | LastAck | TimeWait

  datatype Flags = Flags(fin: bool, syn: bool, psh: bool, ack: bool)

  function Syn(): Flags { Flags(false, true, false, false) }
  function SynAck(): Flags { Flags(false, true, false, true) }
  function Ack(): Flags { Flags(false, false, false, true) }
  function PshAck(): Flags { Flags(false, false, true, true) }
  function FinAck(): Flags { Flags(true, false, false, true) }

  datatype Pcb = Pcb(localIp: u32, remoteIp: u32, localPort: u16, remotePort: u16,
                     state: State, sndNxt: u32, rcvNxt: u32, window: u16)

  /** A segment handed to IP. */
  datatype Segment = Segment(srcPort: u16, destPort: u16, seqNum: u32, ackNum: u32, flags: Flags, window: u16, data: seq<byte>)

  /** A segment received: what `tcp_input` reads of it. */
  datatype Arrival = Arrival(srcIp: u32, srcPort: u16, destPort: u16, seqNum: u32, flags: Flags, payload: seq<byte>)

  /** A control block with the socket it feeds; `live` until it is freed. */
  datatype Conn = Conn(pcb: Pcb, live: bool, ep: Streams.Endpoint)

  /** The connection after a step, and the segments the step emitted. */
  datatype Outcome = Outcome(c: Conn, out: seq<Segment>)

  // ----- tcp_send_segment -----

  function SegmentOf(p: Pcb, flags: Flags, data: seq<byte>): Segment {
    Segment(p.localPort, p.remotePort, p.sndNxt, p.rcvNxt, flags, p.window, data)
  }

  /** Sequence numbers a segment uses up. */
  function Length(s: Segment): nat {
    |s.data| + (if s.flags.syn || s.flags.fin then 1 else 0)
  }

  /** The most data whose length, with the header's 20 bytes, fits the 16 bits it is kept in. */
  const MAX_DATA := 65515

  /**
    The segment is handed to IP and its numbers are used up.  Beyond `MAX_DATA` the total length
    wraps to less than a header: the code then writes header and data into a block of at most 19
    bytes, for 65516 bytes of data through the null pointer that asking for 0 bytes gives, and hands
    at most 19 bytes to IP.  The model has no segment then, but the numbers are used up.
   */
  function Emit(c: Conn, flags: Flags, data: seq<byte>): Outcome {
    var s := SegmentOf(c.pcb, flags, data);
    Outcome(c.(pcb := c.pcb.(sndNxt := Wrap(c.pcb.sndNxt + Length(s)))), if |data| <= MAX_DATA then [s] else [])
  }

  function MoveTo(o: Outcome, state: State): Outcome {
    o.(c := o.c.(pcb := o.c.pcb.(state := state)))
  }

  // ----- opening, sending, closing -----

  function FreshPcb(): Pcb {
    Pcb(0, 0, 0, 0, Closed, 0, 0, 4096)
  }

  /** `socket_connect` on a new control block. */
  function Connect(localIp: u32, localPort: u16, remoteIp: u32, remotePort: u16): Outcome {
    Emit(Conn(FreshPcb().(localIp := localIp, localPort := localPort, remoteIp := remoteIp, remotePort := remotePort,
                        state := SynSent, sndNxt := 100), true, Streams.Opened()), Syn(), [])
  }

  /** `socket_listen` on a new control block. */
  function ListenOn(localPort: u16): Outcome {
    Outcome(Conn(FreshPcb().(localPort := localPort, state := Listen), true, Streams.Opened()), [])
  }

  /** The stream branch of `socket_sendto`: the length is cut to 16 bits. */
  function Send(c: Conn, message: seq<byte>): Outcome {
    if c.pcb.state == Established then Emit(c, PshAck(), message[..|message| % 65536]) else Outcome(c, [])
  }

  function Close(c: Conn): Outcome {
    match c.pcb.state
    case Established => MoveTo(Emit(c, FinAck(), []), FinWait1)
    case CloseWait => MoveTo(Emit(c, FinAck(), []), LastAck)
    case _ => MoveTo(Outcome(c, []), Closed)
  }

  // ----- tcp_input -----

  predicate Matches(p: Pcb, s: Arrival) {
    p.localPort == s.destPort && (p.state == Listen || (p.remotePort == s.srcPort && p.remoteIp == s.srcIp))
  }

  /** `rcv_nxt = n` followed by an acknowledgement. */
  function Acknowledge(c: Conn, n: int): Outcome {
    Emit(c.(pcb := c.pcb.(rcvNxt := Wrap(n))), Ack(), [])
  }

  /** Whether the data of `s` is stored: established, no FIN, and room for all of it. */
  predicate TakesData(c: Conn, s: Arrival) {
    c.pcb.state == Established && !s.flags.fin && s.payload != [] && c.ep.ring.len + |s.payload| <= Rings.SIZE
  }

  /** The state machine of `tcp_input` on the control block found. */
  function Input(c: Conn, s: Arrival): (o: Outcome)
    requires Streams.Shaped(c.ep)
    ensures Streams.Shaped(o.c.ep)
  {
    match c.pcb.state
    case Listen =>
      if !s.flags.syn then Outcome(c, [])
      else Emit(c.(pcb := c.pcb.(remotePort := s.srcPort, remoteIp := s.srcIp, rcvNxt := Wrap(s.seqNum + 1), state := SynReceived)), SynAck(), [])
    case SynSent =>
      if !(s.flags.syn && s.flags.ack) then Outcome(c, [])
      else Acknowledge(c.(pcb := c.pcb.(state := Established)), s.seqNum + 1)
    case SynReceived =>
      if s.flags.ack then MoveTo(Outcome(c, []), Established) else Outcome(c, [])
    case Established =>
      if s.flags.fin then MoveTo(Acknowledge(c, s.seqNum + 1), CloseWait)
      else if TakesData(c, s) then Acknowledge(c.(ep := Streams.Push(c.ep, s.payload)), s.seqNum + |s.payload|)
      else Outcome(c, [])
    case FinWait1 =>
      var c1 := if s.flags.ack then MoveTo(Outcome(c, []), FinWait2).c else c;
      if !s.flags.fin then Outcome(c1, [])
      else MoveTo(Acknowledge(c1, s.seqNum + 1), if c1.pcb.state == FinWait2 then TimeWait else Closing)
    case FinWait2 =>
      if !s.flags.fin then Outcome(c, [])
      else
        var o := MoveTo(Acknowledge(c, s.seqNum + 1), Closed);
        o.(c := o.c.(live := false))
    case LastAck =>
      if !s.flags.ack then Outcome(c, [])
      else Outcome(MoveTo(Outcome(c, []), Closed).c.(live := false), [])
    case _ => Outcome(c, [])
  }

  // ----- whole connections -----

  datatype Event =
    | Arrives(s: Arrival)
    | Sendto(message: seq<byte>)
    | CloseIt
    | Recv(length: nat)
    | ReadOn
    | UdpArrives(d: UdpDatagram)
    | Bind(ip: u32, port: u16)

  type UdpDatagram = d: Datagrams.Datagram | |d.data| < 65536 witness Datagrams.Datagram(0, 0, [])

  /** One step of a connection that is still allocated. */
  function Step(c: Conn, v: Event): (o: Outcome)
    requires Streams.Shaped(c.ep)
    ensures Streams.Shaped(o.c.ep)
  {
    if !c.live then Outcome(c, [])
    else
      match v
      case Arrives(s) => if Matches(c.pcb, s) then Input(c, s) else Outcome(c, [])
      case Sendto(message) => Send(c, message)
      case CloseIt => Close(c)
      case Recv(length) => Outcome(c.(ep := Streams.Receive(c.ep, length)), [])
      case ReadOn => Outcome(c.(ep := Streams.Continue(c.ep)), [])
      case UdpArrives(d) => Outcome(c.(ep := c.ep.(ring := Rings.Offer(c.ep.ring, Datagrams.Frame(d)))), [])
      case Bind(ip, port) => Outcome(c.(pcb := c.pcb.(localIp := ip, localPort := port)), [])
  }

  /** The segment an event hands to the state machine, if any. */
  predicate Heard(c: Conn, v: Event) {
    c.live && v.Arrives? && Matches(c.pcb, v.s)
  }

  /** Whether the event fixes the peer's initial sequence number. */
  predicate Synchronises(c: Conn, v: Event) {
    Heard(c, v) && v.s.flags.syn && (c.pcb.state == Listen || (c.pcb.state == SynSent && v.s.flags.ack))
  }

  /** Whether the event makes the connection take in the peer's FIN. */
  predicate TakesFin(c: Conn, v: Event) {
    Heard(c, v) && v.s.flags.fin && c.pcb.state in {Established, FinWait1, FinWait2}
  }

  predicate TakesPayload(c: Conn, v: Event) {
    Heard(c, v) && TakesData(c, v.s)
  }

  /** Whether a UDP datagram for the socket's port is framed into its stream. */
  predicate TakesUdp(c: Conn, v: Event) {
    c.live && v.UdpArrives? && c.ep.ring.len + |Datagrams.Frame(v.d)| <= Rings.SIZE
  }

  /** Whether a send call takes its message and answers its whole length. */
  predicate Accepts(c: Conn, v: Event) {
    c.live && v.Sendto? && c.pcb.state == Established
  }

  /**
    A connection and its history: segments emitted, bytes that send calls reported as sent, the
    peer's initial sequence number once known, bytes accepted from TCP, whether a FIN was taken,
    everything stored in the ring, how much of it came from UDP, bytes returned by receive calls, and call by
    call what was asked, what was held then, and what was answered.
   */
  datatype History = History(c: Conn, sent: seq<Segment>, handed: seq<byte>,
                             synced: bool, irs: u32, accepted: seq<byte>, finTaken: bool,
                             stored: seq<byte>, framed: nat, returned: seq<byte>,
                             calls: seq<Call>, answers: seq<seq<byte>>)

  /** A receive call that found data: the length asked for, and the bytes stored and not yet returned. */
  datatype Call = Call(asked: nat, held: int)

  /** Whether the event begins a receive call. */
  predicate Begins(c: Conn, v: Event) {
    c.live && v.Recv? && !c.ep.reader.Reading? && c.ep.ring.len > 0
  }

  /** Whether the event ends the running call. */
  predicate Ends(c: Conn, v: Event)
    requires Streams.Shaped(c.ep)
  {
    c.live && v.ReadOn? && c.ep.reader.Reading? && Streams.Continue(c.ep).reader.Done?
  }

  function Returned(e: Streams.Endpoint): (r: seq<byte>)
    requires Streams.Shaped(e)
  {
    var e' := Streams.Continue(e);
    if e.reader.Reading? && e'.reader.Done? then e'.reader.result else []
  }

  function Next(h: History, v: Event): (h': History)
    requires Streams.Shaped(h.c.ep)
    ensures Streams.Shaped(h'.c.ep)
  {
    var o := Step(h.c, v);
    History(
      o.c,
      h.sent + o.out,
      if Accepts(h.c, v) then h.handed + v.message else h.handed,
      h.synced || Synchronises(h.c, v),
      if Synchronises(h.c, v) then v.s.seqNum else h.irs,
      if TakesPayload(h.c, v) then h.accepted + v.s.payload else h.accepted,
      h.finTaken || TakesFin(h.c, v),
      if TakesPayload(h.c, v) then h.stored + v.s.payload
      else if TakesUdp(h.c, v) then h.stored + Datagrams.Frame(v.d) else h.stored,
      if TakesUdp(h.c, v) then h.framed + |Datagrams.Frame(v.d)| else h.framed,
      if h.c.live && v.ReadOn? then h.returned + Returned(h.c.ep) else h.returned,
      if Begins(h.c, v) then h.calls + [Call(v.length, |h.stored| - |h.returned|)] else h.calls,
      if Ends(h.c, v) then h.answers + [Returned(h.c.ep)] else h.answers)
  }

  function Run(h: History, events: seq<Event>): (h': History)
    requires Streams.Shaped(h.c.ep)
    ensures Streams.Shaped(h'.c.ep)
    decreases |events|
  {
    if events == [] then h else Run(Next(h, events[0]), events[1..])
  }

  /** A connection just opened by connect or listen. */
  function Begun(o: Outcome): History {
    History(o.c, o.out, [], false, 0, [], false, [], 0, [], [], [])
  }

  predicate Opening(o: Outcome, isn: u32) {
    || (isn == 100 && exists a: u32, b: u16, c: u32, d: u16 :: o == Connect(a, b, c, d))
    || (isn == 0 && exists b: u16 :: o == ListenOn(b))
  }
}
