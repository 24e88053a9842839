/**
  Sockets as objects: the receive buffer is an array, written by the dispatch of
  arriving data and read by `socket_recvfrom`.
 */
module Sockets {
  import opened Words
  import opened Rings
  import D = Datagrams
  import S = Streams

  class Socket {
    var inUse: bool
    var localPort: u16
    const buffer: array<byte>
    var head: nat
    var tail: nat
    var len: nat

    ghost predicate Valid()
      reads this
    {
      buffer.Length == SIZE && head < SIZE && tail < SIZE
    }

    ghost function Contents(): (r: Ring)
      reads this, buffer
    {
      Ring(buffer[..], head, tail, len)
    }

    /** `socket_create`. */
    constructor ()
      ensures Valid() && fresh(buffer) && inUse && localPort == 0
      ensures Contents() == EmptyRing()
    {
      inUse, localPort := true, 0;
      buffer := new byte[SIZE](_ => 0);
      head, tail, len := 0, 0, 0;
      new;
      assert buffer[..] == EmptyRing().buffer;
    }

    method Store(x: byte)
      requires Valid()
      modifies this`head, buffer
      ensures Valid() && Contents() == PutByte(old(Contents()), x)
    {
      buffer[head] := x;
      head := (head + 1) % SIZE;
    }

    method Fetch() returns (x: byte)
      requires Valid()
      modifies this`tail
      ensures Valid() && x == Front(old(Contents())) && Contents() == Advance(old(Contents()))
    {
      x := buffer[tail];
      tail := (tail + 1) % SIZE;
    }

    /** One of the copy loops of `socket_dispatch_udp`. */
    method StoreAll(s: seq<byte>)
      requires Valid()
      modifies this`head, buffer
      ensures Valid() && Contents() == PutAll(old(Contents()), s)
    {
      hide PutByte;
      ghost var was := Contents();
      assert s[..0] == [];
      for j := 0 to |s|
        invariant Valid() && Contents() == PutAll(was, s[..j])
      {
        assert s[..j + 1][..j] == s[..j];
        Store(s[j]);
      }
      assert s[..|s|] == s;
    }

    /** The part of `socket_dispatch_udp` that concerns the socket found. */
    method Deliver(d: D.Datagram)
      requires Valid() && |d.data| < 65536
      modifies this`head, this`len, buffer
      ensures Valid() && Contents() == Offer(old(Contents()), D.Frame(d))
    {
      hide PutAll;
      if len + D.HEADER + |d.data| <= SIZE {
        var header := D.Header(d.srcIp, d.srcPort, |d.data|);
        ghost var was := Contents();
        StoreAll(header);
        StoreAll(d.data);
        PutAllTwice(was, header, d.data);
        len := len + D.HEADER + |d.data|;
      }
    }

    /** The data loop of `tcp_input`. */
    method Push(s: seq<byte>)
      requires Valid()
      modifies this`head, this`len, buffer
      ensures Valid() && Contents() == S.PushAll(old(Contents()), s)
    {
      hide PutByte;
      ghost var was := Contents();
      assert s[..0] == [];
      for j := 0 to |s|
        invariant Valid() && Contents() == S.PushAll(was, s[..j])
      {
        assert s[..j + 1][..j] == s[..j];
        Store(s[j]);
        len := len + 1;
      }
      assert s[..|s|] == s;
    }

    /** The header loop of `socket_recvfrom`. */
    method FetchHeader(length: nat) returns (h: seq<byte>)
      requires Valid()
      modifies this`tail
      ensures Valid() && |h| == D.HEADER
      ensures D.Finish(D.Endpoint(old(Contents()), D.InHeader(old(tail), length, [])))
              == D.Finish(D.Endpoint(Contents(), D.InData(old(tail), length, h, 0, [])))
    {
      hide Advance, Front;
      ghost var from, end := tail, D.Finish(D.Endpoint(Contents(), D.InHeader(tail, length, [])));
      h := [];
      while |h| < D.HEADER
        invariant Valid() && |h| <= D.HEADER
        invariant end == D.Finish(D.Endpoint(Contents(), if |h| == D.HEADER then D.InData(from, length, h, 0, []) else D.InHeader(from, length, h)))
      {
        var x := Fetch();
        h := h + [x];
      }
    }

    /** The data loop of `socket_recvfrom`: what does not fit in `length` is skipped. */
    method FetchData(ghost from: nat, length: nat, h: seq<byte>, out: array<byte>) returns (n: nat)
      requires Valid() && |h| == D.HEADER && length <= out.Length && out != buffer
      modifies this`tail, out
      ensures Valid() && n <= length && out[n..] == old(out[n..])
      ensures D.Finish(D.Endpoint(old(Contents()), D.InData(from, length, h, 0, [])))
              == D.Finish(D.Endpoint(Contents(), D.InData(from, length, h, D.HalfAt(h, 6), out[..n])))
    {
      hide Advance, Front, D.HalfAt, D.Finish;
      ghost var was := out[..];
      ghost var end := D.Finish(D.Endpoint(Contents(), D.InData(from, length, h, 0, [])));
      var count := D.HalfAt(h, 6);
      var i: nat := 0;
      n := 0;
      assert out[..0] == [];
      while i < count
        invariant Valid() && i <= count && n == (if i < length then i else length)
        invariant out[n..] == was[n..]
        invariant end == D.Finish(D.Endpoint(Contents(), D.InData(from, length, h, i, out[..n])))
      {
        ghost var r, got := Contents(), out[..n];
        var x := Fetch();
        OneMore(r, from, length, h, i, got);
        if i < length {
          out[i] := x;
          n := i + 1;
          assert out[..n] == got + [x];
        }
        i := i + 1;
      }
    }

    /** The datagram branch of `socket_recvfrom`, once there is data. */
    method RecvDatagram(out: array<byte>, length: nat) returns (n: nat, srcIp: u32, srcPort: u16)
      requires Valid() && len > 0 && length <= out.Length && out != buffer
      modifies this`tail, this`len, out
      ensures Valid() && n <= length && out[n..] == old(out[n..])
      ensures D.Endpoint(Contents(), D.Done(D.Datagram(srcIp, srcPort, out[..n])))
              == D.Finish(D.Receive(D.Endpoint(old(Contents()), D.Idle), length))
    {
      ghost var from := tail;
      var h := FetchHeader(length);
      n := FetchData(from, length, h, out);
      srcIp, srcPort := WordAt(h, 0), D.HalfAt(h, 4);
      len := Wrap(len - (D.HEADER + D.HalfAt(h, 6)));
    }

    /** The stream branch of `socket_recvfrom`, once there is data. */
    method RecvStream(out: array<byte>, length: nat) returns (n: nat)
      requires Valid() && len > 0 && length <= out.Length && out != buffer
      modifies this`tail, this`len, out
      ensures Valid() && n <= length && out[n..] == old(out[n..])
      ensures n == if length < old(len) then length else old(len)
      ensures S.Endpoint(Contents(), S.Done(out[..n])) == S.Finish(S.Receive(S.Endpoint(old(Contents()), S.Idle), length))
    {
      hide Advance, Front;
      ghost var was := out[..];
      ghost var from, end := tail, S.Finish(S.Receive(S.Endpoint(Contents(), S.Idle), length));
      n := if length < len then length else len;
      assert out[..0] == [];
      for i := 0 to n
        invariant Valid() && len == old(len)
        invariant out[i..] == was[i..]
        invariant end == S.Finish(S.Endpoint(Contents(), S.Reading(from, n, out[..i])))
      {
        var x := Fetch();
        out[i] := x;
        assert out[..i + 1] == out[..i] + [x];
      }
      len := Wrap(len - n);
    }
  }

  /** One turn of the data loop. */
  lemma OneMore(r: Ring, from: nat, length: nat, h: seq<byte>, i: nat, got: seq<byte>)
    requires |r.buffer| == SIZE && r.head < SIZE && r.tail < SIZE && |h| == D.HEADER && i < D.HalfAt(h, 6)
    ensures |Advance(r).buffer| == SIZE && Advance(r).head < SIZE && Advance(r).tail < SIZE
    ensures D.Finish(D.Endpoint(r, D.InData(from, length, h, i, got)))
            == D.Finish(D.Endpoint(Advance(r), D.InData(from, length, h, i + 1, if i < length then got + [Front(r)] else got)))
  {
    hide Front, D.HalfAt;
  }

  lemma {:induction false} PutAllTwice(r: Ring, a: seq<byte>, b: seq<byte>)
    requires |r.buffer| == SIZE && r.head < SIZE
    ensures PutAll(PutAll(r, a), b) == PutAll(r, a + b)
  {
    hide PutByte;
    if b == [] {
      assert a + b == a;
    } else {
      var n := |b| - 1;
      assert (a + b)[..|a + b| - 1] == a + b[..n];
      PutAllTwice(r, a, b[..n]);
    }
  }

  // ----- the socket table -----

  /** Socket `i` is the first one in use with that port. */
  ghost predicate FirstOn(sockets: array<Socket>, port: u16, i: nat)
    requires i < sockets.Length
    reads sockets, sockets[..]
  {
    && sockets[i].inUse && sockets[i].localPort == port
    && forall j :: 0 <= j < i ==> !(sockets[j].inUse && sockets[j].localPort == port)
  }

  /** Every socket has a buffer of its own. */
  ghost predicate Apart(sockets: array<Socket>)
    reads sockets, sockets[..]
  {
    && (forall i :: 0 <= i < sockets.Length ==> sockets[i].Valid())
    && (forall i, j :: 0 <= i < j < sockets.Length ==> sockets[i] != sockets[j] && sockets[i].buffer != sockets[j].buffer)
  }

  /** `socket_dispatch_udp`: the first socket in use with that port gets the datagram; no other changes. */
  method DispatchUdp(sockets: array<Socket>, port: u16, d: D.Datagram)
    requires Apart(sockets) && |d.data| < 65536
    modifies sockets[..], set i | 0 <= i < sockets.Length :: sockets[i].buffer
    ensures Apart(sockets)
    ensures forall i :: 0 <= i < sockets.Length ==>
              && sockets[i].inUse == old(sockets[i].inUse) && sockets[i].localPort == old(sockets[i].localPort)
              && sockets[i].Contents() == if FirstOn(sockets, port, i) then Offer(old(sockets[i].Contents()), D.Frame(d)) else old(sockets[i].Contents())
  {
    hide Offer;
    for i := 0 to sockets.Length
      invariant forall j :: 0 <= j < i ==> !(sockets[j].inUse && sockets[j].localPort == port)
      invariant forall j :: 0 <= j < sockets.Length ==> sockets[j].Contents() == old(sockets[j].Contents())
      invariant Apart(sockets)
      invariant forall j :: 0 <= j < sockets.Length ==>
                  sockets[j].inUse == old(sockets[j].inUse) && sockets[j].localPort == old(sockets[j].localPort)
    {
      if sockets[i].inUse && sockets[i].localPort == port {
        sockets[i].Deliver(d);
        return;
      }
    }
  }
}
