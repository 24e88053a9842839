/**
  The TCP layer as objects: control blocks in a table of 16, each feeding a socket, and
  the packets handed to IP.
 */
module TcpLayer {
  import opened Words
  import opened Tcp
  import Rings
  import S = Streams
  import Sockets
  import TcpWire

  const MAX_TCP_PCBS := 16

  /** A packet handed to IP: the segment meant, and its bytes. */
  datatype Packet = Packet(segment: Segment, dst: u32, bytes: seq<byte>)

  class ControlBlock {
    var localIp: u32
    var remoteIp: u32
    var localPort: u16
    var remotePort: u16
    var state: State
    var sndNxt: u32
    var rcvNxt: u32
    var window: u16
    const socket: Sockets.Socket

    /** The zeroed control block of `tcp_new_pcb`, attached to its socket. */
    constructor (socket: Sockets.Socket)
      ensures this.socket == socket && Value() == FreshPcb()
    {
      localIp, remoteIp, localPort, remotePort := 0, 0, 0, 0;
      state, sndNxt, rcvNxt, window := State.Closed, 0, 0, 4096;
      this.socket := socket;
    }

    ghost function Value(): Pcb
      reads this
    {
      Pcb(localIp, remoteIp, localPort, remotePort, state, sndNxt, rcvNxt, window)
    }

    /** The control block, allocated, with its socket's ring; no receive call is looked at here. */
    ghost function Connection(): (c: Conn)
      reads this, socket, socket.buffer
    {
      Conn(Value(), true, S.Endpoint(socket.Contents(), S.Idle))
    }
  }

  class Layer {
    const pcbs: array<ControlBlock?>
    var wire: seq<Packet>

    constructor ()
      ensures fresh(pcbs) && pcbs.Length == MAX_TCP_PCBS && wire == []
      ensures forall i :: 0 <= i < MAX_TCP_PCBS ==> pcbs[i] == null
    {
      pcbs := new ControlBlock?[MAX_TCP_PCBS](_ => null);
      wire := [];
    }

    /** The packets that carry the segments `out`, at most one. */
    ghost predicate Transmitted(before: seq<Packet>, out: seq<Segment>, src: u32, dst: u32)
      requires forall s :: s in out ==> |s.data| <= MAX_DATA
      reads this
    {
      wire == before + if out == [] then [] else [Packet(out[0], dst, TcpWire.Sealed(src, dst, out[0]))]
    }

    /** `tcp_new_pcb`: the first empty place of the table, or none. */
    method NewPcb(socket: Sockets.Socket) returns (p: ControlBlock?)
      modifies pcbs
      ensures p == null <==> forall i :: 0 <= i < pcbs.Length ==> old(pcbs[i]) != null
      ensures p == null ==> pcbs[..] == old(pcbs[..])
      ensures p != null ==>
        && fresh(p) && p.socket == socket && p.Value() == FreshPcb()
        && exists i :: 0 <= i < pcbs.Length && old(pcbs[i]) == null && pcbs[..] == old(pcbs[..])[i := p]
                       && forall j :: 0 <= j < i ==> old(pcbs[j]) != null
    {
      for i := 0 to pcbs.Length
        invariant pcbs[..] == old(pcbs[..])
        invariant forall j :: 0 <= j < i ==> pcbs[j] != null
      {
        if pcbs[i] == null {
          p := new ControlBlock(socket);
          pcbs[i] := p;
          return;
        }
      }
      return null;
    }

    /** `tcp_send_segment`. */
    method SendSegment(p: ControlBlock, flags: Flags, data: seq<byte>)
      requires |data| <= MAX_DATA
      modifies p`sndNxt, this`wire
      ensures var c := Conn(old(p.Value()), true, S.Opened());
              var o := Emit(c, flags, data);
              p.Value() == o.c.pcb && Transmitted(old(wire), o.out, p.localIp, p.remoteIp)
    {
      hide Wrap, TcpWire.Sealed;
      var s := Segment(p.localPort, p.remotePort, p.sndNxt, p.rcvNxt, flags, p.window, data);
      var buffer := TcpWire.Build(p.localIp, p.remoteIp, s);
      wire := wire + [Packet(s, p.remoteIp, buffer[..])];
      var n := p.sndNxt;
      if flags.syn || flags.fin {
        n := Wrap(n + 1);
      }
      p.sndNxt := Wrap(n + |data|);
      TwoSteps(s.seqNum, |data|);
    }

    /** `tcp_close`. */
    method Close(p: ControlBlock)
      modifies p, this`wire
      ensures var c := Conn(old(p.Value()), true, S.Opened());
              var o := Tcp.Close(c);
              p.Value() == o.c.pcb && |o.out| <= 1 && (forall s :: s in o.out ==> s.data == []) && Transmitted(old(wire), o.out, p.localIp, p.remoteIp)
    {
      hide Wrap, TcpWire.Sealed;
      if p.state == Established {
        SendSegment(p, FinAck(), []);
        p.state := FinWait1;
      } else if p.state == CloseWait {
        SendSegment(p, FinAck(), []);
        p.state := LastAck;
      } else {
        p.state := State.Closed;
      }
    }

    /** The stream branch of `socket_sendto`; the answer is the whole length, or -1. */
    method Sendto(p: ControlBlock, message: seq<byte>) returns (r: int)
      requires |message| % 65536 <= MAX_DATA
      modifies p`sndNxt, this`wire
      ensures var c := Conn(old(p.Value()), true, S.Opened());
              var o := Send(c, message);
              && p.Value() == o.c.pcb && |o.out| <= 1
              && (forall s :: s in o.out ==> |s.data| <= MAX_DATA)
              && Transmitted(old(wire), o.out, p.localIp, p.remoteIp)
              && r == if old(p.state) == Established then |message| else -1
    {
      hide Wrap, TcpWire.Sealed, Emit;
      if p.state == Established {
        EmitsOne(Conn(p.Value(), true, S.Opened()), PshAck(), message[..|message| % 65536]);
        SendSegment(p, PshAck(), message[..|message| % 65536]);
        return |message|;
      }
      return -1;
    }

    /** `socket_bind` on a socket that has a control block. */
    method Bind(p: ControlBlock, ip: u32, port: u16)
      modifies p`localIp, p`localPort
      ensures p.Value() == Step(Conn(old(p.Value()), true, S.Opened()), Event.Bind(ip, port)).c.pcb
    {
      hide Input, Send, Tcp.Close;
      p.localPort, p.localIp := port, ip;
    }

    /** `rcv_nxt = n`, then an acknowledgement. */
    method Answer(p: ControlBlock, n: int)
      modifies p`rcvNxt, p`sndNxt, this`wire
      ensures var c := Conn(old(p.Value()), true, S.Opened());
              var o := Acknowledge(c, n);
              p.Value() == o.c.pcb && Transmitted(old(wire), o.out, p.localIp, p.remoteIp)
    {
      hide Wrap, TcpWire.Sealed;
      p.rcvNxt := Wrap(n);
      SendSegment(p, Ack(), []);
    }

    /** The established state of `tcp_input`. */
    method InputEstablished(p: ControlBlock, s: Arrival)
      requires p.socket.Valid() && p.state == Established
      modifies p, p.socket, p.socket.buffer, this`wire
      ensures p.socket.Valid()
      ensures var o := Input(old(p.Connection()), s);
              && p.Connection() == o.c && (forall x :: x in o.out ==> x.data == [])
              && Transmitted(old(wire), o.out, p.localIp, p.remoteIp)
    {
      hide Wrap, TcpWire.Sealed, S.PushAll;
      if s.flags.fin {
        Answer(p, s.seqNum + 1);
        p.state := CloseWait;
      } else if s.payload != [] {
        if p.socket.len + |s.payload| <= Rings.SIZE {
          p.socket.Push(s.payload);
          Answer(p, s.seqNum + |s.payload|);
        }
      }
    }

    /** The opening states of `tcp_input`. */
    method InputOpening(p: ControlBlock, s: Arrival)
      requires p.socket.Valid() && p.state in {State.Listen, SynSent, SynReceived}
      modifies p, this`wire
      ensures p.socket.Valid()
      ensures var o := Input(old(p.Connection()), s);
              && p.Connection() == o.c && o.c.live
              && (forall x :: x in o.out ==> x.data == [])
              && Transmitted(old(wire), o.out, p.localIp, p.remoteIp)
    {
      hide Wrap, TcpWire.Sealed;
      if p.state == State.Listen {
        if s.flags.syn {
          p.remotePort, p.remoteIp, p.rcvNxt, p.state := s.srcPort, s.srcIp, Wrap(s.seqNum + 1), SynReceived;
          SendSegment(p, SynAck(), []);
        }
      } else if p.state == SynSent {
        if s.flags.syn && s.flags.ack {
          p.state := Established;
          Answer(p, s.seqNum + 1);
        }
      } else if s.flags.ack {
        p.state := Established;
      }
    }

    /** The first closing state of `tcp_input`. */
    method InputFinWait1(p: ControlBlock, s: Arrival)
      requires p.socket.Valid() && p.state == FinWait1
      modifies p, this`wire
      ensures p.socket.Valid()
      ensures var o := Input(old(p.Connection()), s);
              && p.Connection() == o.c && o.c.live
              && (forall x :: x in o.out ==> x.data == [])
              && Transmitted(old(wire), o.out, p.localIp, p.remoteIp)
    {
      hide Wrap, TcpWire.Sealed;
      if s.flags.ack {
        p.state := FinWait2;
      }
      if s.flags.fin {
        Answer(p, s.seqNum + 1);
        p.state := if p.state == FinWait2 then TimeWait else Closing;
      }
    }

    /** The last states of `tcp_input`; the answer is whether the control block is freed. */
    method InputLast(p: ControlBlock, s: Arrival) returns (freed: bool)
      requires p.socket.Valid() && p.state in {FinWait2, LastAck}
      modifies p, this`wire
      ensures p.socket.Valid()
      ensures var o := Input(old(p.Connection()), s);
              && p.Connection() == o.c.(live := true) && freed == !o.c.live
              && (forall x :: x in o.out ==> x.data == [])
              && Transmitted(old(wire), o.out, p.localIp, p.remoteIp)
    {
      hide Wrap, TcpWire.Sealed;
      freed := false;
      if p.state == FinWait2 {
        if s.flags.fin {
          Answer(p, s.seqNum + 1);
          p.state := State.Closed;
          freed := true;
        }
      } else if s.flags.ack {
        p.state := State.Closed;
        freed := true;
      }
    }

    /** The switch of `tcp_input` on the control block found. */
    method Process(p: ControlBlock, s: Arrival) returns (freed: bool)
      requires p.socket.Valid()
      modifies p, p.socket, p.socket.buffer, this`wire
      ensures p.socket.Valid()
      ensures var o := Input(old(p.Connection()), s);
              && p.Connection() == o.c.(live := true) && freed == !o.c.live
              && (forall x :: x in o.out ==> x.data == [])
              && Transmitted(old(wire), o.out, p.localIp, p.remoteIp)
    {
      hide Wrap, TcpWire.Sealed, S.PushAll;
      freed := false;
      match p.state
      case Listen | SynSent | SynReceived =>
        InputOpening(p, s);
      case Established =>
        InputEstablished(p, s);
      case FinWait1 =>
        InputFinWait1(p, s);
      case FinWait2 | LastAck =>
        freed := InputLast(p, s);
      case _ =>
    }

    /** Every control block and its socket are separate objects. */
    ghost predicate Separate()
      reads this, pcbs, set p <- pcbs[..] | p != null :: p.socket
    {
      && (forall i :: 0 <= i < pcbs.Length && pcbs[i] != null ==> pcbs[i].socket.Valid())
      && (forall i, j :: 0 <= i < j < pcbs.Length && pcbs[i] != null && pcbs[j] != null ==>
            pcbs[i] != pcbs[j] && pcbs[i].socket != pcbs[j].socket && pcbs[i].socket.buffer != pcbs[j].socket.buffer)
    }

    /** Control block `i` is the first that matches the segment. */
    ghost predicate FirstMatch(i: nat, s: Arrival)
      requires i < pcbs.Length
      reads this, pcbs, set p <- pcbs[..] | p != null
    {
      && pcbs[i] != null && Matches(pcbs[i].Value(), s)
      && forall j :: 0 <= j < i && pcbs[j] != null ==> !Matches(pcbs[j].Value(), s)
    }

    /** The search of `tcp_input`. */
    method Find(s: Arrival) returns (found: nat)
      ensures found <= pcbs.Length
      ensures found < pcbs.Length ==> FirstMatch(found, s)
      ensures forall j :: 0 <= j < found && pcbs[j] != null ==> !Matches(pcbs[j].Value(), s)
    {
      for i := 0 to pcbs.Length
        invariant forall j :: 0 <= j < i && pcbs[j] != null ==> !Matches(pcbs[j].Value(), s)
      {
        var p := pcbs[i];
        if p != null && p.localPort == s.destPort
           && (p.state == Listen || (p.remotePort == s.srcPort && p.remoteIp == s.srcIp)) {
          return i;
        }
      }
      return pcbs.Length;
    }

    /** `tcp_input`: the first control block that matches takes the segment; no other changes. */
    method Receive(s: Arrival)
      requires Separate()
      modifies pcbs, this`wire, (set p <- pcbs[..] | p != null), (set p <- pcbs[..] | p != null :: p.socket), (set p <- pcbs[..] | p != null :: p.socket.buffer)
      ensures forall i :: 0 <= i < pcbs.Length && old(pcbs[i]) != null ==>
                if old(FirstMatch(i, s)) then
                  var o, p := Input(old(pcbs[i].Connection()), s), old(pcbs[i]);
                  && p.Connection() == o.c.(live := true)
                  && pcbs[i] == (if o.c.live then p else null)
                  && (forall x :: x in o.out ==> x.data == [])
                  && Transmitted(old(wire), o.out, p.localIp, p.remoteIp)
                else
                  pcbs[i] == old(pcbs[i]) && pcbs[i].Connection() == old(pcbs[i].Connection())
      ensures (forall i :: 0 <= i < pcbs.Length ==> !old(FirstMatch(i, s))) ==> wire == old(wire)
    {
      hide Input, TcpWire.Sealed, Rings.EmptyRing, Matches;
      var i := Find(s);
      if i == pcbs.Length {
        return;
      }
      var p := pcbs[i];
      var freed := Process(p, s);
      if freed {
        pcbs[i] := null;
      }
    }
  }

  lemma TwoSteps(n: u32, k: nat)
    ensures Wrap(Wrap(n + 1) + k) == Wrap(n + (k + 1)) && Wrap(n + k) == Wrap(n + (k + 0))
  {
    WrapTwice(n + 1, k);
  }

  lemma EmitsOne(c: Conn, flags: Flags, data: seq<byte>)
    requires |data| <= MAX_DATA
    ensures Emit(c, flags, data).out == [SegmentOf(c.pcb, flags, data)]
  {
  }
}
