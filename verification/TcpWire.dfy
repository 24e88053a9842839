/**
  TCP segments as bytes: what `tcp_send_segment` builds and what `tcp_input` reads.
 */
module TcpWire {
  import opened Words
  import opened Checksum
  import opened Tcp
  import Packets
  import Streams

  const TCP_LEN := 20

  function BigEndian32(w: u32): (b: seq<byte>)
    ensures |b| == 4
  {
    [ByteOf(w, 3), ByteOf(w, 2), ByteOf(w, 1), ByteOf(w, 0)]
  }

  function Word32At(b: seq<byte>, i: nat): u32
    requires i + 4 <= |b|
  {
    16777216 * (b[i] as int) + 65536 * (b[i + 1] as int) + 256 * (b[i + 2] as int) + b[i + 3] as int
  }

  function Word16At(b: seq<byte>, i: nat): u16
    requires i + 2 <= |b|
  {
    256 * (b[i] as int) + b[i + 1] as int
  }

  function Bit(on: bool): (n: nat) {
    if on then 1 else 0
  }

  /** The flag bits: FIN is bit 0, SYN bit 1, PSH bit 3, ACK bit 4. */
  function FlagsByte(f: Flags): byte {
    Bit(f.fin) + 2 * Bit(f.syn) + 8 * Bit(f.psh) + 16 * Bit(f.ack)
  }

  function FlagsOf(b: byte): Flags {
    Flags(b % 2 == 1, b / 2 % 2 == 1, b / 8 % 2 == 1, b / 16 % 2 == 1)
  }

  /** The header with a zero checksum: the data offset of 5 words is in the high half of byte 12. */
  function HeaderBytes(s: Segment): (h: seq<byte>)
    ensures |h| == TCP_LEN
  {
    Packets.BigEndian16(s.srcPort) + Packets.BigEndian16(s.destPort) + BigEndian32(s.seqNum) + BigEndian32(s.ackNum)
    + [0x50, FlagsByte(s.flags)] + Packets.BigEndian16(s.window) + [0, 0] + [0, 0]
  }

  function Encode(s: Segment): (b: seq<byte>)
    ensures |b| == TCP_LEN + |s.data|
  {
    HeaderBytes(s) + s.data
  }

  /** An address as it lies in memory. */
  function AddressBytes(ip: u32): (b: seq<byte>)
    ensures |b| == 4
  {
    WordBytes([ip])
  }

  /** The segment with its checksum in place. */
  function Sealed(src: u32, dst: u32, s: Segment): (b: seq<byte>)
    requires |s.data| <= MAX_DATA
    ensures |b| == TCP_LEN + |s.data|
  {
    var b := Encode(s);
    PutWord(b, 16, Sum16(Packets.PseudoHeader(AddressBytes(src), AddressBytes(dst), |b|) + b))
  }

  /** What `tcp_input` reads of a segment from `srcIp`. */
  function Decode(srcIp: u32, b: seq<byte>): Arrival
    requires TCP_LEN <= |b|
  {
    var offset := b[12] / 16 * 4;
    Arrival(srcIp, Word16At(b, 0), Word16At(b, 2), Word32At(b, 4), FlagsOf(b[13]), if |b| > offset then b[offset..] else [])
  }

  lemma Word32RoundTrip(w: u32)
    ensures Word32At(BigEndian32(w), 0) == w
  {
    ByteOfRecombine(w);
  }

  lemma FlagsRoundTrip(f: Flags)
    ensures FlagsOf(FlagsByte(f)) == f
  {
  }

  lemma FlagsByteIs(f: Flags)
    ensures FlagsByte(f) == (if f.fin then 1 else 0) + (if f.syn then 2 else 0) + (if f.psh then 8 else 0) + (if f.ack then 16 else 0)
  {
  }

  lemma HeaderFields(s: Segment)
    ensures var h := HeaderBytes(s);
            && h[0..4] == Packets.BigEndian16(s.srcPort) + Packets.BigEndian16(s.destPort)
            && h[4..8] == BigEndian32(s.seqNum) && h[8..12] == BigEndian32(s.ackNum)
            && h[14..16] == Packets.BigEndian16(s.window) && h[18] == 0 && h[19] == 0
            && h[12] == 0x50 && h[13] == FlagsByte(s.flags) && h[16] == 0 && h[17] == 0
  {
  }

  /** The other end reads the segment that was sent. */
  lemma SealedReadsBack(src: u32, dst: u32, s: Segment)
    requires |s.data| <= MAX_DATA
    ensures Decode(src, Sealed(src, dst, s)) == Arrival(src, s.srcPort, s.destPort, s.seqNum, s.flags, s.data)
    ensures var b := Sealed(src, dst, s);
            Word32At(b, 8) == s.ackNum && b[12] == 0x50
            && b[13] == (if s.flags.fin then 1 else 0) + (if s.flags.syn then 2 else 0) + (if s.flags.psh then 8 else 0) + (if s.flags.ack then 16 else 0)
            && Word16At(b, 14) == s.window && b[18] == 0 && b[19] == 0
  {
    hide Sum16, Encode, HeaderBytes, BigEndian32, ByteOf, FlagsByte, FlagsOf, Packets.PseudoHeader, AddressBytes;
    var b, e, h := Sealed(src, dst, s), Encode(s), HeaderBytes(s);
    assert e == h + s.data by { EncodeIs(s); }
    HeaderFields(s);
    SealedBytes(src, dst, s);
    FlagsRoundTrip(s.flags);
    FlagsByteIs(s.flags);
    Word32RoundTrip(s.seqNum);
    Word32RoundTrip(s.ackNum);
    FourBytesFrom(b, 8, BigEndian32(s.ackNum));
    WordFrom(b, 14, s.window);
    assert b[4..8] == h[4..8] && b[0..4] == h[0..4];
    FourBytesFrom(b, 4, BigEndian32(s.seqNum));
    PortsAt(b, s.srcPort, s.destPort);
    assert b[20..] == s.data;
  }

  /** Options, which only other systems send, are skipped as the header length says, up to 40 bytes of them. */
  lemma OptionsAreSkipped(srcIp: u32, header: seq<byte>, options: seq<byte>, data: seq<byte>)
    requires |header| == TCP_LEN && |options| <= 40 && header[12] / 16 * 4 == TCP_LEN + |options|
    ensures Decode(srcIp, header + options + data).payload == data
  {
    var b := header + options + data;
    assert b[12] == header[12];
    assert b[TCP_LEN + |options| ..] == data;
  }

  // ----- the checksum at the other end -----

  /** The checksum the other end computes: over the addresses of the IP header and the bytes of the segment. */
  function CheckAt(src: seq<byte>, dst: seq<byte>, segment: seq<byte>): u16
    requires |src| == 4 && |dst| == 4 && |segment| <= 65535
  {
    Sum16(Packets.PseudoHeader(src, dst, |segment|) + segment)
  }

  /** An address adds its value, modulo 65535. */
  lemma AddressSum(ip: u32)
    ensures WordSum(AddressBytes(ip)) % 65535 == ip % 65535
  {
    var b := AddressBytes(ip);
    Packets.FourBytes(b);
    var low, high := ip % 65536, ip / 65536;
    assert b[0] == ip % 256 && b[1] == ip / 256 % 256 && b[2] == ip / 65536 % 256 && b[3] == ip / 16777216 % 256;
    LowBytes(ip);
    HighBytes(ip);
    assert WordSum(b) == low + high;
    assert ip == 65535 * high + (low + high);
    ModAdd(low + high, high);
  }

  /** Sums of the pseudo-header with one source or another differ by the sources' sums. */
  lemma SourceSum(a: seq<byte>, b: seq<byte>, dst: seq<byte>, length: u16)
    requires |a| == 4 && |b| == 4 && |dst| == 4
    ensures WordSum(Packets.PseudoHeader(a, dst, length)) - WordSum(a) == WordSum(Packets.PseudoHeader(b, dst, length)) - WordSum(b)
    ensures WordSum(Packets.PseudoHeader(a, dst, length)) > WordSum(a)
  {
    Packets.PseudoSum(a, dst, length);
    Packets.PseudoSum(b, dst, length);
    Packets.FourBytes(a);
    Packets.FourBytes(b);
    assert Swap16(6) > 0;
  }

  /**
    A segment sealed with the control block's address `local` checks at the other end, which
    goes by the source address `my` of the IP header, exactly when the two are equal modulo 65535.
   */
  lemma OtherEndChecksIff(my: u32, local: u32, dst: u32, s: Segment)
    requires |s.data| <= MAX_DATA
    ensures CheckAt(AddressBytes(my), AddressBytes(dst), Sealed(local, dst, s)) == 0 <==> my % 65535 == local % 65535
  {
    hide Sum16, Encode, WordSum, AddressBytes, Packets.PseudoHeader, Fold;
    var a, l, d, e := AddressBytes(my), AddressBytes(local), AddressBytes(dst), Encode(s);
    var b := Sealed(local, dst, s);
    var pa, pl := Packets.PseudoHeader(a, d, |e|), Packets.PseudoHeader(l, d, |e|);
    SealedBytes(local, dst, s);
    ChecksumField(s);
    PseudoLength(a, d, |e|);
    PseudoLength(l, d, |e|);
    var c := Sum16(pl + e);
    WordSumSplit(pl, e);
    WordSumSplit(pa, b);
    PutWordSum(e, 16, c);
    SourceSum(a, l, d, |e|);
    AddressSum(my);
    AddressSum(local);
    SumIs(pl + e);
    SumIs(pa + b);
    ShiftedSum(WordSum(pl) + WordSum(e), WordSum(pa) + WordSum(b), WordSum(a), WordSum(l), c, my, local);
  }

  lemma PseudoLength(src: seq<byte>, dst: seq<byte>, length: u16)
    requires |src| == 4 && |dst| == 4
    ensures |Packets.PseudoHeader(src, dst, length)| == 12
  {
  }

  lemma SumIs(b: seq<byte>)
    ensures Sum16(b) == 65535 - Fold(WordSum(b))
  {
  }

  lemma ChecksumField(s: Segment)
    ensures WordOf(Encode(s), 16) == 0
  {
    HeaderFields(s);
    EncodeIs(s);
  }

  /** `y` is `x` with the source's sum `l` replaced by `a` and the checksum `c` of `x` added. */
  lemma ShiftedSum(x: nat, y: nat, a: nat, l: nat, c: nat, my: u32, local: u32)
    requires c == 65535 - Fold(x) && y == x - l + a + c && x > l
    requires a % 65535 == my % 65535 && l % 65535 == local % 65535
    ensures Fold(y) == 65535 <==> my % 65535 == local % 65535
  {
    hide Fold;
    FoldKeeps(x);
    Complement(x, Fold(x));
    FoldKeeps(y);
    Checksum.Shift(x + c, l, a);
    assert y == (x + c) - l + a;
    if y % 65535 == 0 {
      Representative(Fold(y), 65535);
    }
  }

  /** 10.0.2.15, as it lies in memory. */
  const MY_IP: u32 := 10 + 2 * 65536 + 15 * 16777216

  /** A control block opened by listening has address 0: none of its segments checks at the other end. */
  lemma PassiveNeverChecks(dst: u32, s: Segment)
    requires |s.data| <= MAX_DATA
    ensures CheckAt([10, 0, 2, 15], AddressBytes(dst), Sealed(0, dst, s)) != 0
  {
    OtherEndChecksIff(MY_IP, 0, dst, s);
    assert AddressBytes(MY_IP) == [10, 0, 2, 15] by { MyBytes(); }
  }

  lemma MyBytes()
    ensures AddressBytes(MY_IP) == [10, 0, 2, 15]
  {
    var b := AddressBytes(MY_IP);
    assert b[0] == 10 && b[1] == 0 && b[2] == 2 && b[3] == 15;
  }

  /** The frame that carries a sealed segment, as `net_send_ipv4` builds it. */
  function FrameOf(gateway: seq<byte>, mac: seq<byte>, my: u32, local: u32, dst: u32, id: u16, s: Segment): (f: seq<byte>)
    requires |gateway| == 6 && |mac| == 6 && |s.data| <= MAX_DATA
  {
    gateway + mac + [8, 0]
    + Packets.Sealed(Packets.Ipv4Fields(20 + |Sealed(local, dst, s)|, id, 6, AddressBytes(my), AddressBytes(dst)), 10)
    + Sealed(local, dst, s)
  }

  /** The other end takes addresses and segment from the frame; what it computes is 0 exactly when the sources agree. */
  lemma FrameChecksIff(gateway: seq<byte>, mac: seq<byte>, my: u32, local: u32, dst: u32, id: u16, s: Segment)
    requires |gateway| == 6 && |mac| == 6 && |s.data| <= MAX_DATA
    ensures var f := FrameOf(gateway, mac, my, local, dst, id, s);
            && |f| == 54 + |s.data|
            && (CheckAt(f[26..30], f[30..34], f[34..]) == 0 <==> my % 65535 == local % 65535)
  {
    hide Sum16, Sealed, Packets.Sealed, Packets.Ipv4Fields, CheckAt, AddressBytes;
    var h := Packets.Ipv4Fields(20 + |Sealed(local, dst, s)|, id, 6, AddressBytes(my), AddressBytes(dst));
    var front := gateway + mac + [8, 0];
    var ip := Packets.Sealed(h, 10);
    var f := FrameOf(gateway, mac, my, local, dst, id, s);
    Packets.SealedVerifies(h, 10);
    AddressFields(20 + |Sealed(local, dst, s)|, id, AddressBytes(my), AddressBytes(dst));
    assert f == front + ip + Sealed(local, dst, s);
    assert f[34..] == Sealed(local, dst, s);
    assert f[26..30] == ip[12..16] == h[12..16];
    assert f[30..34] == ip[16..20] == h[16..20];
    OtherEndChecksIff(my, local, dst, s);
  }

  lemma AddressFields(total: nat, id: u16, src: seq<byte>, dst: seq<byte>)
    requires |src| == 4 && |dst| == 4
    ensures var h := Packets.Ipv4Fields(total, id, 6, src, dst); h[12..16] == src && h[16..20] == dst
  {
  }

  // ----- over a whole connection -----

  /** The address bound last, `ip` before the run; binding a control block that was freed is no event here. */
  function BoundLast(h: History, events: seq<Event>, ip: u32): u32
    requires Streams.Shaped(h.c.ep)
    decreases |events|
  {
    if events == [] then ip
    else BoundLast(Next(h, events[0]), events[1..], if h.c.live && events[0].Bind? then events[0].ip else ip)
  }

  /** No other event changes the address of a control block. */
  lemma {:induction false} AddressIs(h: History, events: seq<Event>)
    requires Streams.Shaped(h.c.ep)
    ensures Run(h, events).c.pcb.localIp == BoundLast(h, events, h.c.pcb.localIp)
    decreases |events|
  {
    hide Wrap, Returned;
    if events != [] {
      StepAddress(h.c, events[0]);
      AddressIs(Next(h, events[0]), events[1..]);
    }
  }

  lemma StepAddress(c: Conn, v: Event)
    requires Streams.Shaped(c.ep)
    ensures Step(c, v).c.pcb.localIp == if c.live && v.Bind? then v.ip else c.pcb.localIp
    ensures Step(c, v).out != [] ==> !v.Bind?
  {
    hide Wrap, Streams.Push, Streams.Receive, Streams.Continue;
  }

  /**
    Whatever a connection emits at any moment checks at the other end exactly when the address its
    control block was bound to last is that of the IP header, modulo 65535.  Without a bind
    that is the address it was opened with: the right one after connecting, 0 after listening.
   */
  lemma ConnectionChecksIff(o: Outcome, isn: u32, events: seq<Event>, v: Event, my: u32)
    requires Opening(o, isn) && Streams.Shaped(Begun(o).c.ep)
    ensures var o' := Step(Run(Begun(o), events).c, v);
            var dst := o'.c.pcb.remoteIp;
            forall s :: s in o'.out ==>
              |s.data| <= MAX_DATA
              && (CheckAt(AddressBytes(my), AddressBytes(dst), Sealed(o'.c.pcb.localIp, dst, s)) == 0
                  <==> my % 65535 == BoundLast(Begun(o), events, o.c.pcb.localIp) % 65535)
  {
    hide CheckAt, Sealed, Opening, Run, Wrap, AddressBytes, Step;
    AddressIs(Begun(o), events);
    var h := Run(Begun(o), events);
    StepAddress(h.c, v);
    OutFits(h.c, v);
    var o' := Step(h.c, v);
    forall s | s in o'.out
      ensures CheckAt(AddressBytes(my), AddressBytes(o'.c.pcb.remoteIp), Sealed(o'.c.pcb.localIp, o'.c.pcb.remoteIp, s)) == 0
              <==> my % 65535 == BoundLast(Begun(o), events, o.c.pcb.localIp) % 65535
    {
      OtherEndChecksIff(my, o'.c.pcb.localIp, o'.c.pcb.remoteIp, s);
    }
  }

  lemma OutFits(c: Conn, v: Event)
    requires Streams.Shaped(c.ep)
    ensures forall s :: s in Step(c, v).out ==> |s.data| <= MAX_DATA
  {
    hide Wrap, Streams.Push, Streams.Receive, Streams.Continue;
  }

  lemma EncodeIs(s: Segment)
    ensures Encode(s) == HeaderBytes(s) + s.data
  {
  }

  lemma SealedBytes(src: u32, dst: u32, s: Segment)
    requires |s.data| <= MAX_DATA
    ensures var b, e := Sealed(src, dst, s), Encode(s);
            && (forall i :: 0 <= i < |e| && i != 16 && i != 17 ==> b[i] == e[i])
            && b == PutWord(e, 16, Sum16(Packets.PseudoHeader(AddressBytes(src), AddressBytes(dst), |e|) + e))
  {
    hide Sum16, Encode, Packets.PseudoHeader;
  }

  lemma FourBytesFrom(b: seq<byte>, i: nat, w: seq<byte>)
    requires i + 4 <= |b| && |w| == 4 && b[i .. i + 4] == w
    ensures Word32At(b, i) == Word32At(w, 0)
  {
    var f := b[i .. i + 4];
    assert b[i] == f[0] && b[i + 1] == f[1] && b[i + 2] == f[2] && b[i + 3] == f[3];
  }

  lemma WordFrom(b: seq<byte>, i: nat, p: u16)
    requires i + 2 <= |b| && b[i .. i + 2] == Packets.BigEndian16(p)
    ensures Word16At(b, i) == p
  {
    var f := b[i .. i + 2];
    assert f[0] == p / 256 && f[1] == p % 256 && b[i] == f[0] && b[i + 1] == f[1];
  }

  lemma PortsAt(b: seq<byte>, p: u16, q: u16)
    requires |b| >= 4 && b[0..4] == Packets.BigEndian16(p) + Packets.BigEndian16(q)
    ensures Word16At(b, 0) == p && Word16At(b, 2) == q
  {
    var f := b[0..4];
    assert f[0] == p / 256 && f[1] == p % 256 && f[2] == q / 256 && f[3] == q % 256;
    assert forall i :: 0 <= i < 4 ==> b[i] == f[i];
  }

  /** The buffer `tcp_send_segment` hands to IP. */
  method Build(src: u32, dst: u32, s: Segment) returns (buffer: array<byte>)
    requires |s.data| <= MAX_DATA
    ensures fresh(buffer) && buffer[..] == Sealed(src, dst, s)
  {
    hide HeaderBytes, Sum16, Packets.PseudoHeader, AddressBytes, Packets.Paste;
    buffer := new byte[TCP_LEN + |s.data|](_ => 0);
    var h := HeaderBytes(s);
    ghost var zeros := buffer[..];
    Packets.CopyBytes(buffer, 0, h);
    Packets.CopyBytes(buffer, TCP_LEN, s.data);
    PasteHeader(zeros, h, s.data);
    var c := Packets.TcpChecksum(AddressBytes(src), AddressBytes(dst), buffer, buffer.Length);
    assert buffer[..buffer.Length] == buffer[..] == Encode(s);
    buffer[16], buffer[17] := c % 256, c / 256;
  }

  lemma PasteHeader(b: seq<byte>, h: seq<byte>, data: seq<byte>)
    requires |b| == |h| + |data|
    ensures Packets.Paste(Packets.Paste(b, 0, h), |h|, data) == h + data
  {
  }
}
