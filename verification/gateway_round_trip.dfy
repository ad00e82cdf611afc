/** One request all the way through the gateway and back. */
module GatewayRoundTrip {
  import opened Bytes
  import opened StandardCrc
  import opened GatewayModel
  import opened GatewayImage

  /** The bytes of a packet arriving without a gap. */
  function Arriving(packet: seq<byte>): seq<PortEvent> {
    seq(|packet|, i requires 0 <= i < |packet| => Byte(packet[i]))
  }

  predicate WholePacket(packet: seq<byte>) {
    |packet| >= 3 && |packet| == PacketLength(packet[..3])
  }

  lemma {:induction false} HearFrom(packet: seq<byte>, k: nat)
    requires |packet| >= 3 && 1 <= k <= |packet|
    requires k <= PacketLength(packet[..3])
    ensures var n := PacketLength(packet[..3]);
      HearRest(Arriving(packet), packet[..k], if k < 3 then 3 else n, true) ==
        if n <= |packet| then Packet(packet[..n]) else Gap
    decreases |packet| - k
  {
    hide PacketLength;
    var n := PacketLength(packet[..3]);
    if k < |packet| && k < n {
      HearFrom(packet, k + 1);
      assert packet[..k] + [packet[k]] == packet[..k + 1];
    }
  }

  /** Any bytes in a row are heard up to the length they announce, or end in a gap. */
  lemma ArrivingIsHeard(packet: seq<byte>)
    requires |packet| >= 3
    ensures var n := PacketLength(packet[..3]);
      Hear(Arriving(packet)) == if n <= |packet| then Packet(packet[..n]) else Gap
  {
    hide PacketLength, HearRest;
    HearFrom(packet, 1);
    assert packet[..1] == [packet[0]];
  }

  /** A packet of the length its own bytes announce is heard whole, neither cut nor extended. */
  lemma PacketIsHeard(packet: seq<byte>)
    requires WholePacket(packet)
    ensures Hear(Arriving(packet)) == Packet(packet)
  {
    hide Hear;
    ArrivingIsHeard(packet);
    assert packet[..|packet|] == packet;
  }

  function Trip(sock: int, payload: seq<byte>, packet: seq<byte>): seq<Step> {
    [Accept(sock, payload), Take, Transmit(true), Listen(Arriving(packet))]
  }

  lemma ExecTrip(g: Gateway, sock: int, payload: seq<byte>, packet: seq<byte>)
    requires AllSized(g)
    ensures Exec(g, Trip(sock, payload, packet)) ==
      Next(Next(Next(Next(g, Accept(sock, payload)), Take), Transmit(true)), Listen(Arriving(packet)))
  {
    hide Next, AllSized, Exec;
    var a, t, l := Accept(sock, payload), Transmit(true), Listen(Arriving(packet));
    ExecNothing(g);
    ExecMore(g, [], a);
    ExecMore(g, [a], Take);
    ExecMore(g, [a, Take], t);
    ExecMore(g, [a, Take, t], l);
    assert [] + [a] == [a] && [a] + [Take] == [a, Take] && [a, Take] + [t] == [a, Take, t];
    assert [a, Take, t] + [l] == Trip(sock, payload, packet);
  }

  lemma TripToTheLine(g: Gateway, sock: int, payload: seq<byte>)
    requires AllSized(g) && g.phase.Idle? && g.queue == [] && !g.rebooted && |payload| <= 255
    ensures var e := Entry(|g.accepted|, Message(sock, payload));
      Next(Next(Next(g, Accept(sock, payload)), Take), Transmit(true)) ==
        g.(accepted := g.accepted + [e.msg], phase := Waiting(e), sent := g.sent + [e])
  {
    hide WithCrc, ToByte;
    var e := Entry(|g.accepted|, Message(sock, payload));
    assert |WithCrc(payload)| == |payload| + 2;
    assert ([] + [e])[1..] == [] && ([] + [e])[0] == e;
  }

  /** An idle gateway puts the request on the line with its CRC and hands the first whole packet back, whoever sent
      it: the address is not compared. The packet counts exactly when its own CRC checks. */
  lemma RoundTrip(g: Gateway, sock: int, payload: seq<byte>, packet: seq<byte>)
    requires AllSized(g) && g.phase.Idle? && g.queue == [] && !g.rebooted
    requires |payload| <= 255 && WholePacket(packet)
    ensures var h := Exec(g, Trip(sock, payload, packet));
      var id := |g.accepted|;
      && |h.sent| == |g.sent| + 1 && Frame(h.sent[|g.sent|].msg) == WithCrc(payload)
      && h.phase.Idle? && h.queue == [] && h.silent == 0
      && h.replies == (if Passes(packet)
           then g.replies + [Reply(id, ToByte(sock), AnswerBytes(packet), Answer(packet))] else g.replies)
      && h.dropped == (if Passes(packet) then g.dropped else g.dropped + [id])
  {
    hide WithCrc, ToByte, Passes, AnswerBytes, Next, Exec, PacketLength, Hear;
    ExecTrip(g, sock, payload, packet);
    TripToTheLine(g, sock, payload);
    PacketIsHeard(packet);
    var e := Entry(|g.accepted|, Message(sock, payload));
    assert Frame(e.msg) == WithCrc(payload);
    var w := g.(accepted := g.accepted + [e.msg], phase := Waiting(e), sent := g.sent + [e]);
    HeardPacket(w, packet);
  }

  lemma HeardPacket(w: Gateway, packet: seq<byte>)
    requires AllSized(w) && w.phase.Waiting? && !w.rebooted && WholePacket(packet)
    ensures Next(w, Listen(Arriving(packet))) == Outcome(w, w.phase.entry, Packet(packet))
  {
    hide Hear, PacketLength;
    PacketIsHeard(packet);
    hide Outcome;
  }
}
