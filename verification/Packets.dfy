/**
  Packets that carry the checksum: the IPv4 header of outgoing packets, the echo
  reply made in place, and the TCP checksum with its pseudo-header.
 */
module Packets {
  import opened Words
  import opened Checksum

  const ETH_LEN := 14
  const IP_LEN := 20

  /** `b[at ..]` overwritten by `s`. */
  function Paste(b: seq<byte>, at: nat, s: seq<byte>): (r: seq<byte>)
    requires at + |s| <= |b|
    ensures |r| == |b|
  {
    b[..at] + s + b[at + |s| ..]
  }

  /** A buffer in which a checksum has been computed over itself with a zero in its place. */
  function Sealed(b: seq<byte>, o: nat): (r: seq<byte>)
    requires o + 2 <= |b|
    ensures |r| == |b|
  {
    var zeroed := PutWord(b, o, 0);
    PutWord(zeroed, o, Sum16(zeroed))
  }

  /** A sealed buffer checks to 0. */
  lemma SealedVerifies(b: seq<byte>, o: nat)
    requires o % 2 == 0 && o + 2 <= |b|
    ensures Sum16(Sealed(b, o)) == 0
    ensures forall p :: 0 <= p < |b| && p != o && p != o + 1 ==> Sealed(b, o)[p] == b[p]
  {
    StoredVerifies(PutWord(b, o, 0), o, 0);
  }

  lemma ChecksumIs(b: seq<byte>)
    ensures Sum16(b) == 65535 - Fold(0 + WordSum(b))
  {
  }

  method CopyBytes(b: array<byte>, at: nat, s: seq<byte>)
    requires at + |s| <= b.Length
    modifies b
    ensures b[..] == Paste(old(b[..]), at, s)
  {
    for j := 0 to |s|
      invariant forall p :: at <= p < at + j ==> b[p] == s[p - at]
      invariant forall p :: 0 <= p < at || at + j <= p < b.Length ==> b[p] == old(b[p])
    {
      b[at + j] := s[j];
    }
  }

  /** Zeroing a checksum field at offset `o` of `b[from .. from + count]` and filling it in. */
  method Seal(b: array<byte>, from: nat, count: nat, o: nat)
    requires from + count <= b.Length && count <= 65535 && o + 2 <= count
    modifies b
    ensures b[..] == Paste(old(b[..]), from, Sealed(old(b[..])[from .. from + count], o))
  {
    hide Sum16, Paste, PutWord;
    ghost var was := b[..];
    ghost var part := was[from .. from + count];
    b[from + o], b[from + o + 1] := 0, 0;
    PutInside(was, from, count, o, 0, b[..]);
    ghost var zeroed := PutWord(part, o, 0);
    ghost var was' := b[..];
    assert b[from .. from + count] == was'[from .. from + count] == zeroed;
    var c := Compute(b, from, count, 0);
    ChecksumIs(zeroed);
    b[from + o], b[from + o + 1] := c % 256, c / 256;
    PutInside(was', from, count, o, c, b[..]);
    PasteTwice(was, from, zeroed, PutWord(zeroed, o, c));
  }

  /** Two stores inside a window write that word of the window. */
  lemma PutInside(was: seq<byte>, from: nat, count: nat, o: nat, w: u16, now: seq<byte>)
    requires from + count <= |was| && o + 2 <= count
    requires now == was[from + o := w % 256][from + o + 1 := w / 256]
    ensures now == Paste(was, from, PutWord(was[from .. from + count], o, w))
    ensures now[from .. from + count] == PutWord(was[from .. from + count], o, w)
  {
  }

  lemma PasteTwice(b: seq<byte>, at: nat, s: seq<byte>, t: seq<byte>)
    requires at + |s| <= |b| && |t| == |s|
    ensures Paste(Paste(b, at, s), at, t) == Paste(b, at, t)
  {
  }

  lemma PasteBetween(a: seq<byte>, x: seq<byte>, z: seq<byte>, s: seq<byte>)
    requires |s| == |x|
    ensures Paste(a + x + z, |a|, s) == a + s + z
  {
  }

  // ----- outgoing IPv4 packets -----

  function BigEndian16(w: nat): (b: seq<byte>)
    ensures |b| == 2
  {
    [w / 256 % 256, w % 256]
  }

  /** The header of `net_send_ipv4`, checksum field zero. */
  function Ipv4Fields(total: nat, id: nat, protocol: byte, src: seq<byte>, dst: seq<byte>): (h: seq<byte>)
    requires |src| == 4 && |dst| == 4
    ensures |h| == 20
  {
    [0x45, 0] + BigEndian16(total) + BigEndian16(id) + [0, 0] + [64, protocol] + [0, 0] + src + dst
  }

  /** What a receiver reads of a header of 20 bytes: version 4, five words, a lifetime of 64 hops, not a fragment. */
  lemma HeaderReadsBack(total: nat, id: u16, protocol: byte, src: seq<byte>, dst: seq<byte>)
    requires |src| == 4 && |dst| == 4 && total <= 65535
    ensures var h := Sealed(Ipv4Fields(total, id, protocol, src, dst), 10);
            && h[0] / 16 == 4 && h[0] % 16 * 4 == |h| && h[1] == 0
            && TotalLength(h) == total && 256 * (h[4] as int) + h[5] as int == id && h[6] == 0 && h[7] == 0
            && h[8] == 64 && h[9] == protocol && h[12..16] == src && h[16..20] == dst
            && Sum16(h) == 0
  {
    hide Sum16, PutWord, Sealed;
    var f := Ipv4Fields(total, id, protocol, src, dst);
    SealedVerifies(f, 10);
    var h := Sealed(f, 10);
    assert f[12..16] == src && f[16..20] == dst;
    assert h[12..16] == f[12..16] && h[16..20] == f[16..20];
  }

  /** `net_send_ipv4`: the frame handed to the driver. */
  method SendIpv4(gateway: seq<byte>, mac: seq<byte>, src: seq<byte>, dst: seq<byte>, id: u16, protocol: byte, payload: seq<byte>)
    returns (frame: array<byte>)
    requires |gateway| == 6 && |mac| == 6 && |src| == 4 && |dst| == 4
    ensures fresh(frame)
    ensures frame[..] == gateway + mac + [8, 0] + Sealed(Ipv4Fields(20 + |payload|, id, protocol, src, dst), 10) + payload
    ensures Sum16(frame[14..34]) == 0
  {
    hide Paste, Sealed, Ipv4Fields, Sum16;
    frame := new byte[ETH_LEN + IP_LEN + |payload|](_ => 0);
    var fields := Ipv4Fields(20 + |payload|, id, protocol, src, dst);
    ghost var zeros := frame[..];
    CopyBytes(frame, 0, gateway);
    CopyBytes(frame, 6, mac);
    CopyBytes(frame, 12, [8, 0]);
    CopyBytes(frame, ETH_LEN, fields);
    ghost var packed := frame[..];
    PacketStart(zeros, gateway, mac, fields);
    Seal(frame, ETH_LEN, IP_LEN, 10);
    SealedVerifies(fields, 10);
    CopyBytes(frame, ETH_LEN + IP_LEN, payload);
    PacketEnd(packed, gateway + mac + [8, 0], fields, Sealed(fields, 10), payload);
    assert frame[14..34] == frame[..][14..34];
  }

  lemma PacketStart(b: seq<byte>, gateway: seq<byte>, mac: seq<byte>, fields: seq<byte>)
    requires |gateway| == 6 && |mac| == 6 && |fields| == 20 && 34 <= |b|
    ensures Paste(Paste(Paste(Paste(b, 0, gateway), 6, mac), 12, [8, 0]), 14, fields)
            == gateway + mac + [8, 0] + fields + b[34..]
    ensures (gateway + mac + [8, 0] + fields + b[34..])[14..34] == fields
  {
    hide Paste;
    var x0, x1, x2, x3 := b[..6], b[6..12], b[12..14], b[14..34];
    assert b == [] + x0 + b[6..];
    PasteBetween([], x0, b[6..], gateway);
    assert [] + gateway + b[6..] == gateway + x1 + b[12..];
    PasteBetween(gateway, x1, b[12..], mac);
    assert gateway + mac + b[12..] == (gateway + mac) + x2 + b[14..];
    PasteBetween(gateway + mac, x2, b[14..], [8, 0]);
    var head := gateway + mac + [8, 0];
    assert head + b[14..] == head + x3 + b[34..];
    PasteBetween(head, x3, b[34..], fields);
  }

  lemma PacketEnd(b: seq<byte>, head: seq<byte>, fields: seq<byte>, sealed: seq<byte>, payload: seq<byte>)
    requires |head| == 14 && |fields| == 20 && |sealed| == 20
    requires |b| == 34 + |payload| && b == head + fields + b[34..]
    ensures Paste(Paste(b, 14, sealed), 34, payload) == head + sealed + payload
    ensures (head + sealed + payload)[14..34] == sealed
  {
    hide Paste;
    PasteBetween(head, fields, b[34..], sealed);
    var all := head + sealed;
    assert head + sealed + b[34..] == all + b[34..] + [];
    PasteBetween(all, b[34..], [], payload);
  }

  // ----- the echo reply -----

  /** A frame with its Ethernet addresses turned round (our own as source) and its IP addresses exchanged. */
  function TurnedRound(p: seq<byte>, mac: seq<byte>): (r: seq<byte>)
    requires |mac| == 6 && 34 <= |p|
    ensures |r| == |p|
  {
    Paste(Paste(Paste(Paste(p, 0, p[6..12]), 6, mac), 30, p[26..30]), 26, p[30..34])
  }

  /** The reply to an echo request: turned round, both checksums made anew, type echo reply. */
  function EchoReply(p: seq<byte>, mac: seq<byte>, header: nat, icmp: nat): (r: seq<byte>)
    requires |mac| == 6 && header >= IP_LEN && icmp >= 4 && ETH_LEN + header + icmp <= |p|
    ensures |r| == |p|
  {
    var t := TurnedRound(p, mac);
    var q := Paste(t, 14, Sealed(t[14 .. 14 + header], 10))[14 + header := 0];
    Paste(q, 14 + header, Sealed(q[14 + header .. 14 + header + icmp], 2))
  }

  /** The first part of `net_handle_icmp`: addresses exchanged in place. */
  method TurnRound(packet: array<byte>, mac: seq<byte>)
    requires |mac| == 6 && 34 <= packet.Length
    modifies packet
    ensures packet[..] == TurnedRound(old(packet[..]), mac)
  {
    hide Paste;
    ghost var p := packet[..];
    var from := packet[6..12];
    var srcIp, dstIp := packet[26..30], packet[30..34];
    assert from == p[6..12] && srcIp == p[26..30] && dstIp == p[30..34];
    CopyBytes(packet, 0, from);
    CopyBytes(packet, 6, mac);
    CopyBytes(packet, 30, srcIp);
    CopyBytes(packet, 26, dstIp);
  }

  /** The total length field of an IPv4 header. */
  function TotalLength(header: seq<byte>): u16
    requires |header| >= 4
  {
    256 * (header[2] as int) + header[3] as int
  }

  /** `net_handle_icmp` on a packet with an IP header of `header` bytes and `icmp` bytes of ICMP. */
  method HandleIcmp(packet: array<byte>, mac: seq<byte>, header: nat, icmp: nat) returns (reply: bool, length: nat)
    requires |mac| == 6 && IP_LEN <= header <= 60 && 4 <= icmp <= 65535 && ETH_LEN + header + icmp <= packet.Length
    modifies packet
    ensures reply <==> old(packet[14 + header]) == 8
    ensures length == if reply then ETH_LEN + TotalLength(old(packet[14..34])) else 0
    ensures packet[..] == (if reply then EchoReply(old(packet[..]), mac, header, icmp) else old(packet[..]))
  {
    hide Sealed, Paste, TurnedRound;
    if packet[14 + header] != 8 {
      return false, 0;
    }
    ghost var p := packet[..];
    TurnRound(packet, mac);
    ghost var t := packet[..];
    Seal(packet, 14, header, 10);
    ghost var u := packet[..];
    packet[14 + header] := 0;
    assert packet[..] == u[14 + header := 0];
    Seal(packet, 14 + header, icmp, 2);
    SameLength(p, mac, header, icmp);
    return true, ETH_LEN + TotalLength(packet[14..34]);
  }

  lemma PasteAt(b: seq<byte>, at: nat, s: seq<byte>)
    requires at + |s| <= |b|
    ensures Paste(b, at, s)[at .. at + |s|] == s
    ensures forall k :: 0 <= k < |b| && (k < at || at + |s| <= k) ==> Paste(b, at, s)[k] == b[k]
    ensures forall k :: at <= k < at + |s| ==> Paste(b, at, s)[k] == s[k - at]
  {
  }

  lemma TurnedRoundMeaning(p: seq<byte>, mac: seq<byte>)
    requires |mac| == 6 && 34 <= |p|
    ensures var t := TurnedRound(p, mac);
            && t[0..6] == p[6..12] && t[6..12] == mac && t[26..30] == p[30..34] && t[30..34] == p[26..30]
            && (forall k :: 12 <= k < 26 || 34 <= k < |p| ==> t[k] == p[k])
  {
    hide Paste;
    var p1 := Paste(p, 0, p[6..12]);
    var p2 := Paste(p1, 6, mac);
    var p3 := Paste(p2, 30, p[26..30]);
    PasteAt(p, 0, p[6..12]);
    PasteAt(p1, 6, mac);
    PasteAt(p2, 30, p[26..30]);
    PasteAt(p3, 26, p[30..34]);
    var t := Paste(p3, 26, p[30..34]);
    assert t == TurnedRound(p, mac);
    assert t[0..6] == p1[0..6];
    assert t[6..12] == p2[6..12];
    assert t[30..34] == p3[30..34];
  }

  /** The two parts of a reply that carry a checksum, and the bytes that do not. */
  lemma EchoReplyParts(p: seq<byte>, mac: seq<byte>, header: nat, icmp: nat)
    requires |mac| == 6 && header >= IP_LEN && icmp >= 4 && ETH_LEN + header + icmp <= |p|
    ensures var r, t := EchoReply(p, mac, header, icmp), TurnedRound(p, mac);
            && r[14 .. 14 + header] == Sealed(t[14 .. 14 + header], 10)
            && r[14 + header .. 14 + header + icmp] == Sealed(t[14 + header .. 14 + header + icmp][0 := 0], 2)
            && (forall k :: 0 <= k < 14 || 14 + header + icmp <= k < |p| ==> r[k] == t[k])
  {
    hide Paste, Sealed, TurnedRound;
    var t := TurnedRound(p, mac);
    var sealed := Sealed(t[14 .. 14 + header], 10);
    var q0 := Paste(t, 14, sealed);
    PasteAt(t, 14, sealed);
    var q := q0[14 + header := 0];
    var body := q[14 + header .. 14 + header + icmp];
    assert body == t[14 + header .. 14 + header + icmp][0 := 0];
    PasteAt(q, 14 + header, Sealed(body, 2));
    var r := EchoReply(p, mac, header, icmp);
    assert r[14 .. 14 + header] == q0[14 .. 14 + header];
  }

  /** The reply keeps the total length. */
  lemma SameLength(p: seq<byte>, mac: seq<byte>, header: nat, icmp: nat)
    requires |mac| == 6 && header >= IP_LEN && icmp >= 4 && ETH_LEN + header + icmp <= |p|
    ensures TotalLength(EchoReply(p, mac, header, icmp)[14..34]) == TotalLength(p[14..34])
  {
    hide Paste, Sealed, TurnedRound, EchoReply, Sum16;
    var r, t := EchoReply(p, mac, header, icmp), TurnedRound(p, mac);
    TurnedRoundMeaning(p, mac);
    EchoReplyParts(p, mac, header, icmp);
    var ip := t[14 .. 14 + header];
    SealedVerifies(ip, 10);
    ReadBack(r, 14, Sealed(ip, 10));
    assert r[16] == p[16] && r[17] == p[17];
  }

  /** The total length field of an outgoing packet is right exactly for payloads of up to 65515 bytes. */
  lemma TotalLengthIff(n: nat, id: nat, protocol: byte, src: seq<byte>, dst: seq<byte>)
    requires |src| == 4 && |dst| == 4
    ensures TotalLength(Ipv4Fields(20 + n, id, protocol, src, dst)) == 20 + n <==> n <= 65515
  {
    hide BigEndian16;
    LowHalf(20 + n);
    assert Ipv4Fields(20 + n, id, protocol, src, dst)[2..4] == BigEndian16(20 + n);
    assert forall h: seq<byte> :: |h| == 20 && h[2..4] == BigEndian16(20 + n) ==> h[2] == h[2..4][0] && h[3] == h[2..4][1];
  }

  lemma LowHalf(w: nat)
    ensures 256 * (BigEndian16(w)[0] as int) + BigEndian16(w)[1] as int == w % 65536
  {
    LowBytes(w);
  }

  /** What the reply means: addresses exchanged, both checksums valid, the type changed, the data as sent. */
  lemma EchoReplyMeaning(p: seq<byte>, mac: seq<byte>, header: nat, icmp: nat)
    requires |mac| == 6 && header >= IP_LEN && icmp >= 4 && ETH_LEN + header + icmp <= |p|
    ensures var r := EchoReply(p, mac, header, icmp);
            && r[0..6] == p[6..12] && r[6..12] == mac
            && r[26..30] == p[30..34] && r[30..34] == p[26..30]
            && Sum16(r[14 .. 14 + header]) == 0
            && r[14 + header] == 0 && Sum16(r[14 + header .. 14 + header + icmp]) == 0
            && r[18 + header .. 14 + header + icmp] == p[18 + header .. 14 + header + icmp]
  {
    hide Sum16, Sealed, EchoReply, TurnedRound;
    var r, t := EchoReply(p, mac, header, icmp), TurnedRound(p, mac);
    TurnedRoundMeaning(p, mac);
    EchoReplyParts(p, mac, header, icmp);
    var ip, body := t[14 .. 14 + header], t[14 + header .. 14 + header + icmp][0 := 0];
    SealedVerifies(ip, 10);
    SealedVerifies(body, 2);
    assert r[0..6] == t[0..6] && r[6..12] == t[6..12];
    ReadBack(r, 14, Sealed(ip, 10));
    ReadBack(r, 14 + header, Sealed(body, 2));
    forall k | 26 <= k < 34
      ensures r[k] == t[k]
    {
      assert r[k] == Sealed(ip, 10)[k - 14] == ip[k - 14];
    }
    assert r[26..30] == t[26..30];
    assert r[30..34] == t[30..34];
    assert r[18 + header .. 14 + header + icmp] == t[18 + header .. 14 + header + icmp];
  }

  lemma ReadBack(r: seq<byte>, at: nat, s: seq<byte>)
    requires at + |s| <= |r| && r[at .. at + |s|] == s
    ensures forall k :: at <= k < at + |s| ==> r[k] == s[k - at]
  {
    assert forall k :: at <= k < at + |s| ==> r[k] == r[at .. at + |s|][k - at];
  }

  // ----- TCP -----

  /** The pseudo-header of section 3.1 of RFC 9293: addresses, zero, protocol 6, length. */
  function PseudoHeader(src: seq<byte>, dst: seq<byte>, length: u16): seq<byte> {
    src + dst + [0, 6] + BigEndian16(length)
  }

  /** The pseudo-header of section 3.1 of RFC 9293: addresses, a zero byte, protocol 6, the length most significant byte first. */
  lemma PseudoHeaderIs(src: seq<byte>, dst: seq<byte>, length: u16)
    requires |src| == 4 && |dst| == 4
    ensures var h := PseudoHeader(src, dst, length);
            && |h| == 12 && h[0..4] == src && h[4..8] == dst && h[8] == 0 && h[9] == 6
            && 256 * (h[10] as int) + h[11] as int == length
  {
  }

  /** `tcp_checksum` of the first `length` bytes of `segment`. */
  method TcpChecksum(src: seq<byte>, dst: seq<byte>, segment: array<byte>, length: u16) returns (c: u16)
    requires |src| == 4 && |dst| == 4 && length <= segment.Length
    ensures c == Sum16(PseudoHeader(src, dst, length) + segment[..length])
  {
    var sum: nat := WordOf(src, 0) + WordOf(src, 2);
    sum := sum + WordOf(dst, 0) + WordOf(dst, 2);
    sum := sum + Swap16(6) + Swap16(length);
    PseudoSum(src, dst, length);
    c := Compute(segment, 0, length, sum);
    WordSumSplit(PseudoHeader(src, dst, length), segment[..length]);
    assert segment[0 .. 0 + length] == segment[..length];
  }

  lemma PseudoSum(src: seq<byte>, dst: seq<byte>, length: u16)
    requires |src| == 4 && |dst| == 4
    ensures WordSum(PseudoHeader(src, dst, length))
            == WordOf(src, 0) + WordOf(src, 2) + WordOf(dst, 0) + WordOf(dst, 2) + Swap16(6) + Swap16(length)
  {
    var tail := [0, 6] + BigEndian16(length);
    assert PseudoHeader(src, dst, length) == src + (dst + tail);
    WordSumSplit(src, dst + tail);
    WordSumSplit(dst, tail);
    FourBytes(src);
    FourBytes(dst);
    FourBytes(tail);
  }

  lemma FourBytes(b: seq<byte>)
    requires |b| == 4
    ensures WordSum(b) == WordOf(b, 0) + WordOf(b, 2)
  {
    assert WordSum(b[2..]) == b[2] + 256 * (b[3] as int) + WordSum(b[2..][2..]);
  }

  /** A segment sent with its checksum in place checks to 0 together with its pseudo-header. */
  lemma SentSegmentVerifies(src: seq<byte>, dst: seq<byte>, segment: seq<byte>)
    requires |src| == 4 && |dst| == 4 && 20 <= |segment| <= 65535 && WordOf(segment, 16) == 0
    ensures var pseudo := PseudoHeader(src, dst, |segment|);
            Sum16(pseudo + PutWord(segment, 16, Sum16(pseudo + segment))) == 0
  {
    var pseudo := PseudoHeader(src, dst, |segment|);
    WordSumSplit(pseudo, segment);
    var c := Sum16(pseudo + segment);
    WordSumSplit(pseudo, PutWord(segment, 16, c));
    StoredVerifies(segment, 16, WordSum(pseudo));
  }
}
