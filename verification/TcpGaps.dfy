/**
  Where data lies among the sequence numbers when overlong messages leave gaps: what was put on
  the wire before the first gap keeps its place, and everything later lies behind it.
 */
module TcpGaps {
  import opened Words
  import Streams
  import opened Tcp
  import opened TcpSender

  /** Sequence numbers that a step uses for data: sent, or skipped over. */
  function SpentBy(c: Conn, v: Event): nat
    requires Streams.Shaped(c.ep)
  {
    |DataOf(Step(c, v))| + Skipped(c, v)
  }

  /** Sequence numbers that a run uses for data. */
  function Spent(h: History, events: seq<Event>): nat
    requires Streams.Shaped(h.c.ep)
    decreases |events|
  {
    if events == [] then 0 else SpentBy(h.c, events[0]) + Spent(Next(h, events[0]), events[1..])
  }

  /** The data put on the wire before the first overlong message. */
  function Solid(h: History, events: seq<Event>): seq<byte>
    requires Streams.Shaped(h.c.ep)
    decreases |events|
  {
    if events == [] || Overlong(h.c, events[0]) then Bytes(h.sent) else Solid(Next(h, events[0]), events[1..])
  }

  predicate PrefixOf(a: seq<byte>, b: seq<byte>) {
    |a| <= |b| && a == b[..|a|]
  }

  /** The data of `s` is the piece of `solid` at `k`, or lies behind all of it. */
  predicate PlacedAt(s: Segment, isn: u32, solid: seq<byte>, spent: nat, k: nat) {
    && s.seqNum == Wrap(isn + 1 + k) && k + |s.data| <= spent
    && (k > |solid| || (k + |s.data| <= |solid| && solid[k .. k + |s.data|] == s.data))
  }

  ghost predicate HasPlace(s: Segment, isn: u32, solid: seq<byte>, spent: nat) {
    exists k: nat :: PlacedAt(s, isn, solid, spent, k)
  }

  ghost predicate AllPlaced(sent: seq<Segment>, isn: u32, solid: seq<byte>, spent: nat) {
    forall i :: 0 <= i < |sent| && sent[i].data != [] ==> HasPlace(sent[i], isn, solid, spent)
  }

  /** The numbers used so far; as long as none was skipped, all data sent is solid. */
  ghost predicate Placed(h: History, isn: u32, solid: seq<byte>, spent: nat) {
    && SenderOk(h, isn)
    && (PhaseOf(h.c.pcb.state) == Waiting ==> spent == 0)
    && (PhaseOf(h.c.pcb.state) == Sending ==> h.c.pcb.sndNxt == Wrap(isn + 1 + spent))
    && PrefixOf(solid, Bytes(h.sent)) && |Bytes(h.sent)| <= spent
    && (|Bytes(h.sent)| == spent ==> solid == Bytes(h.sent))
    && AllPlaced(h.sent, isn, solid, spent)
  }

  /** More data at the end of what is solid. */
  lemma PlacedMore(sent: seq<Segment>, isn: u32, s: Segment)
    requires AllPlaced(sent, isn, Bytes(sent), |Bytes(sent)|)
    requires s.data != [] ==> s.seqNum == Wrap(isn + 1 + |Bytes(sent)|)
    ensures AllPlaced(sent + [s], isn, Bytes(sent) + s.data, |Bytes(sent)| + |s.data|)
  {
    hide Wrap, Bytes;
    var b, all := Bytes(sent), sent + [s];
    forall i | 0 <= i < |all| && all[i].data != []
      ensures HasPlace(all[i], isn, b + s.data, |b| + |s.data|)
    {
      if i < |sent| {
        var k: nat :| PlacedAt(sent[i], isn, b, |b|, k);
        assert (b + s.data)[k .. k + |all[i].data|] == b[k .. k + |all[i].data|];
        assert PlacedAt(all[i], isn, b + s.data, |b| + |s.data|, k);
      } else {
        assert (b + s.data)[|b| .. |b| + |s.data|] == s.data;
        assert PlacedAt(all[i], isn, b + s.data, |b| + |s.data|, |b|);
      }
    }
  }

  /** Numbers used, by data behind a gap or by a gap, leave what is solid alone. */
  lemma PlacedBehind(sent: seq<Segment>, isn: u32, solid: seq<byte>, spent: nat, out: seq<Segment>, more: nat)
    requires AllPlaced(sent, isn, solid, spent) && |out| <= 1
    requires out != [] && out[0].data != [] ==>
               spent > |solid| && out[0].seqNum == Wrap(isn + 1 + spent) && |out[0].data| <= more
    ensures AllPlaced(sent + out, isn, solid, spent + more)
  {
    hide Wrap;
    var all := sent + out;
    forall i | 0 <= i < |all| && all[i].data != []
      ensures HasPlace(all[i], isn, solid, spent + more)
    {
      if i < |sent| {
        var k: nat :| PlacedAt(sent[i], isn, solid, spent, k);
        assert PlacedAt(all[i], isn, solid, spent + more, k);
      } else {
        assert PlacedAt(all[i], isn, solid, spent + more, spent);
      }
    }
  }

  lemma BytesAfter(sent: seq<Segment>, out: seq<Segment>)
    requires |out| <= 1
    ensures Bytes(sent + out) == Bytes(sent) + (if out == [] then [] else out[0].data)
  {
    if out == [] {
      assert sent + out == sent;
    } else {
      assert out == [out[0]];
      Appended(sent, out[0]);
    }
  }

  /** The phases and `snd_nxt` over one step. */
  lemma NextNumbers(h: History, v: Event, isn: u32, spent: nat)
    requires SenderOk(h, isn)
    requires PhaseOf(h.c.pcb.state) == Waiting ==> spent == 0
    requires PhaseOf(h.c.pcb.state) == Sending ==> h.c.pcb.sndNxt == Wrap(isn + 1 + spent)
    ensures var h', spent' := Next(h, v), spent + SpentBy(h.c, v);
            && SenderOk(h', isn)
            && (PhaseOf(h'.c.pcb.state) == Waiting ==> spent' == 0)
            && (PhaseOf(h'.c.pcb.state) == Sending ==> h'.c.pcb.sndNxt == Wrap(isn + 1 + spent'))
    ensures |Step(h.c, v).out| <= 1 && (Overlong(h.c, v) ==> Step(h.c, v).out == [])
    ensures Skipped(h.c, v) > 0 <==> Overlong(h.c, v)
    ensures Step(h.c, v).out != [] && Step(h.c, v).out[0].data != [] ==> Step(h.c, v).out[0].seqNum == Wrap(isn + 1 + spent)
  {
    hide Wrap, SynFirst, FinLast, NoFin, Step, PhaseOf;
    StepSends(h.c, v);
    NextSenderOk(h, v, isn);
    WrapSmall(h.c.pcb.sndNxt);
    WrapTwice(isn, 1);
    WrapTwice(isn + 1 + spent, SpentBy(h.c, v));
    WrapSmall(isn);
  }

  lemma NextPlaced(h: History, v: Event, isn: u32, solid: seq<byte>, spent: nat)
    requires Placed(h, isn, solid, spent)
    ensures var b, b' := Bytes(h.sent), Bytes(Next(h, v).sent);
            && PrefixOf(b, b')
            && Placed(Next(h, v), isn, if |b| == spent && !Overlong(h.c, v) then b' else solid, spent + SpentBy(h.c, v))
            && (|b'| == spent + SpentBy(h.c, v) <==> |b| == spent && !Overlong(h.c, v))
  {
    hide Wrap, SenderOk, Bytes, Step, PhaseOf, AllPlaced, Overlong;
    SenderShaped(h, isn);
    NextNumbers(h, v, isn, spent);
    var out, h' := Step(h.c, v).out, Next(h, v);
    assert h'.sent == h.sent + out;
    BytesAfter(h.sent, out);
    if |Bytes(h.sent)| == spent && !Overlong(h.c, v) {
      if out == [] {
        assert h.sent + out == h.sent;
      } else {
        assert out == [out[0]];
        PlacedMore(h.sent, isn, out[0]);
      }
    } else {
      PlacedBehind(h.sent, isn, solid, spent, out, SpentBy(h.c, v));
    }
  }

  lemma SenderShaped(h: History, isn: u32)
    requires SenderOk(h, isn)
    ensures Streams.Shaped(h.c.ep)
  {
  }

  /** Behind a gap everything stays behind it. */
  lemma {:induction false} RunBehind(h: History, events: seq<Event>, isn: u32, solid: seq<byte>, spent: nat)
    requires Placed(h, isn, solid, spent) && spent > |Bytes(h.sent)|
    ensures Streams.Shaped(h.c.ep) && Placed(Run(h, events), isn, solid, spent + Spent(h, events))
    ensures |Bytes(Run(h, events).sent)| < spent + Spent(h, events)
    decreases |events|
  {
    hide Placed, SpentBy, Next, Bytes, Overlong;
    PlacedShaped(h, isn, solid, spent);
    if events != [] {
      NextPlaced(h, events[0], isn, solid, spent);
      PlacedShaped(Next(h, events[0]), isn, solid, spent + SpentBy(h.c, events[0]));
      RunBehind(Next(h, events[0]), events[1..], isn, solid, spent + SpentBy(h.c, events[0]));
    }
  }

  lemma PlacedShaped(h: History, isn: u32, solid: seq<byte>, spent: nat)
    requires Placed(h, isn, solid, spent)
    ensures Streams.Shaped(h.c.ep) && |Bytes(h.sent)| <= spent && PrefixOf(solid, Bytes(h.sent))
    ensures |Bytes(h.sent)| == spent ==> solid == Bytes(h.sent)
    ensures AllPlaced(h.sent, isn, solid, spent)
  {
    hide AllPlaced, PhaseOf, Bytes, Wrap, SynFirst, FinLast;
  }

  lemma {:induction false} RunPlaced(h: History, events: seq<Event>, isn: u32)
    requires Placed(h, isn, Bytes(h.sent), |Bytes(h.sent)|)
    ensures Streams.Shaped(h.c.ep)
    ensures Placed(Run(h, events), isn, Solid(h, events), |Bytes(h.sent)| + Spent(h, events))
    ensures |Bytes(Run(h, events).sent)| == |Bytes(h.sent)| + Spent(h, events) <==> NoOverlong(h, events)
    decreases |events|
  {
    hide Placed, SpentBy, Next, Bytes, Overlong;
    var b := Bytes(h.sent);
    PlacedShaped(h, isn, b, |b|);
    if events != [] {
      NextPlaced(h, events[0], isn, b, |b|);
      var h1 := Next(h, events[0]);
      if Overlong(h.c, events[0]) {
        PlacedShaped(h1, isn, b, |b| + SpentBy(h.c, events[0]));
        RunBehind(h1, events[1..], isn, b, |b| + SpentBy(h.c, events[0]));
      } else {
        RunPlaced(h1, events[1..], isn);
      }
    }
  }

  /**
    The whole life of a connection: what went out before the first overlong message is a prefix of all
    that went out; every data segment carries the piece of it that its number says, or lies
    behind all of it.  All that went out is solid when no message was overlong.
   */
  lemma SolidKeepsItsPlace(o: Outcome, isn: u32, events: seq<Event>)
    requires Opening(o, isn)
    ensures Streams.Shaped(Begun(o).c.ep)
    ensures var h, solid, spent := Run(Begun(o), events), Solid(Begun(o), events), Spent(Begun(o), events);
            && PrefixOf(solid, Bytes(h.sent)) && AllPlaced(h.sent, isn, solid, spent)
            && |Bytes(h.sent)| <= spent && (|Bytes(h.sent)| == spent <==> NoOverlong(Begun(o), events))
            && (NoOverlong(Begun(o), events) ==> solid == Bytes(h.sent))
  {
    hide Wrap, Run, Opening, Bytes, Solid, Spent, AllPlaced, Placed, SenderOk, NoOverlong;
    BegunSenderOk(o, isn);
    BegunPlaced(o, isn);
    RunPlaced(Begun(o), events, isn);
    PlacedShaped(Run(Begun(o), events), isn, Solid(Begun(o), events), Spent(Begun(o), events));
  }

  lemma BegunPlaced(o: Outcome, isn: u32)
    requires Opening(o, isn) && SenderOk(Begun(o), isn) && Bytes(Begun(o).sent) == []
    ensures Placed(Begun(o), isn, [], 0)
  {
    hide SenderOk;
  }

  /**
    A gap in a run: of a message of 65516 to 65535 bytes nothing goes out, and what is sent next
    lies that far behind the place where the peer expects it.
   */
  lemma OverlongLeavesGap(port: u16, irs: u32, m: seq<byte>, x: byte)
    requires MAX_DATA < |m| < 65536
    ensures Streams.Shaped(Begun(ListenOn(port)).c.ep)
    ensures var h := Run(Begun(ListenOn(port)), HandshakeOn(port, irs) + [Sendto(m), Sendto([x])]);
            && h.handed == m + [x] && |h.sent| == 2
            && h.sent[0].seqNum == 0 && h.sent[0].flags == SynAck()
            && h.sent[1].data == [x] && h.sent[1].seqNum == 1 + |m|
  {
    hide Run, HandshakeOn;
    var h2 := Shaken(port, irs);
    var h3 := Next(h2, Sendto(m));
    assert m[..|m|] == m && h3.sent == h2.sent && h3.c.pcb.sndNxt == 1 + |m|;
    var h4 := Next(h3, Sendto([x]));
    assert [x][..1] == [x];
    AfterHandshake(port, irs, [Sendto(m), Sendto([x])]);
    TwoEvents(h2, Sendto(m), Sendto([x]));
  }
}
