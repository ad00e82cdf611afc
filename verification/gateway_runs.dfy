/** Short runs of the gateway, spelled out: silence, a failing port, a busy line, a gap. */
module GatewayRuns {
  import opened Bytes
  import opened StandardCrc
  import opened GatewayModel
  import opened GatewayTheory
  import opened GatewayImage
  import opened GatewayRoundTrip

  ghost predicate Resting(g: Gateway) {
    AllSized(g) && g.phase.Idle? && g.queue == [] && !g.rebooted
  }

  function Try(events: seq<PortEvent>): seq<Step> {
    [Take, Transmit(true), Listen(events)]
  }

  lemma ExecThree(g: Gateway, a: Step, b: Step, c: Step)
    requires AllSized(g)
    ensures Exec(g, [a, b, c]) == Next(Next(Next(g, a), b), c)
  {
    hide Next, AllSized, Exec;
    ExecNothing(g);
    ExecMore(g, [], a);
    ExecMore(g, [a], b);
    ExecMore(g, [a, b], c);
    assert [] + [a] == [a] && [a] + [b] == [a, b] && [a, b] + [c] == [a, b, c];
  }

  ghost predicate Single(g: Gateway, e: Entry) {
    AllSized(g) && g.phase.Idle? && !g.rebooted && g.queue == [e] && 4 <= |e.msg| <= 512
  }

  function Again(e: Entry): Entry
    requires |e.msg| >= 2
  {
    Entry(e.id, e.msg[1 := e.msg[1] + 1])
  }

  /** The only message waiting is put on the line. */
  lemma Goes(g: Gateway, e: Entry)
    requires Single(g, e) && e.msg[1] <= 2
    ensures Next(Next(g, Take), Transmit(true)) == g.(queue := [], phase := Waiting(e), sent := g.sent + [e])
  {
    assert g.queue[1..] == [];
  }

  ghost predicate Attending(w: Gateway) {
    AllSized(w) && w.phase.Waiting? && !w.rebooted && 4 <= |w.phase.entry.msg| && w.phase.entry.msg[1] <= 2
  }

  /** No byte at all: the message goes back with one more repeat on its count. */
  lemma NoByte(w: Gateway)
    requires Attending(w)
    ensures Next(w, Listen([])) == w.(phase := Idle, queue := w.queue + [Again(w.phase.entry)])
  {
    assert w.phase.entry.msg[1] + 1 <= MAX_ADDRESS;
  }

  /** A packet that breaks off: the same, but a byte was heard. */
  lemma BrokenOff(w: Gateway, b: byte)
    requires Attending(w)
    ensures Next(w, Listen([Byte(b)])) == w.(phase := Idle, silent := 0, queue := w.queue + [Again(w.phase.entry)])
  {
    assert w.phase.entry.msg[1] + 1 <= MAX_ADDRESS;
  }

  /** A port that fails at once: the request is given up. */
  lemma FailsAtOnce(w: Gateway)
    requires Attending(w)
    ensures Next(w, Listen([Failure])) == w.(phase := GaveUp(w.phase.entry))
  {
  }

  /** A port that fails within a packet: the same, but a byte was heard. */
  lemma FailsLater(w: Gateway, b: byte)
    requires Attending(w)
    ensures Next(w, Listen([Byte(b), Failure])) == w.(phase := GaveUp(w.phase.entry), silent := 0)
  {
  }

  /** Silence after a transmission: the message is back in the queue with one more repeat. */
  lemma SilentTry(g: Gateway, e: Entry)
    requires Single(g, e) && e.msg[1] <= 2
    ensures Exec(g, Try([])) == g.(queue := [Again(e)], sent := g.sent + [e])
  {
    hide Exec, Next;
    ExecThree(g, Take, Transmit(true), Listen([]));
    Goes(g, e);
    NoByte(g.(queue := [], phase := Waiting(e), sent := g.sent + [e]));
    assert [] + [Again(e)] == [Again(e)];
  }

  lemma Comes(g: Gateway, sock: int, payload: seq<byte>)
    requires Resting(g) && |payload| <= 255
    ensures var e := Entry(|g.accepted|, Message(sock, payload));
      && Next(g, Accept(sock, payload)) == g.(accepted := g.accepted + [e.msg], queue := [e])
      && Exec(g, [Accept(sock, payload)]) == Next(g, Accept(sock, payload))
      && 4 <= |e.msg| <= 259 && e.msg[0] == ToByte(sock) && e.msg[1] == 0 && e.msg[2..] == WithCrc(payload)
  {
    hide Exec;
    ExecNothing(g);
    ExecMore(g, [], Accept(sock, payload));
    assert [] + [Accept(sock, payload)] == [Accept(sock, payload)];
    hide WithCrc, ToByte;
    var m := Message(sock, payload);
    assert |WithCrc(payload)| == |payload| + 2;
    assert m[2..] == WithCrc(payload);
    assert [] + [Entry(|g.accepted|, m)] == [Entry(|g.accepted|, m)];
  }

  /** The end of a request that nobody answered: its number, its socket, and what the client gets. */
  function LastReply(id: nat, sock: int, frame: seq<byte>): Reply
    requires |frame| >= 2
  {
    Reply(id, ToByte(sock), [0, 0, 0, 0, 0, 3, frame[0], frame[1] | 0x80, 0x0B], Silence)
  }

  lemma Reports(g: Gateway)
    requires AllSized(g) && g.phase.GaveUp? && !g.rebooted
    ensures |g.phase.entry.msg| >= 4
    ensures var e := g.phase.entry;
      var r := Reply(e.id, e.msg[0], [0, 0, 0, 0, 0, 3, e.msg[2], e.msg[3] | 0x80, 0x0B], Silence);
      Next(g, GiveUp) ==
        g.(phase := Idle, silent := g.silent + 1, rebooted := g.silent + 1 > 4, replies := g.replies + [r])
  {
    var e := g.phase.entry;
    assert NoResponseBytes(e.msg[2], e.msg[3]) == [0, 0, 0, 0, 0, 3, e.msg[2], e.msg[3] | 0x80, 0x0B];
  }

  lemma GivesUp(g: Gateway, e: Entry)
    requires Single(g, e) && e.msg[1] > 2
    ensures var r := Reply(e.id, e.msg[0], [0, 0, 0, 0, 0, 3, e.msg[2], e.msg[3] | 0x80, 0x0B], Silence);
      Exec(g, [Take, GiveUp]) ==
        g.(queue := [], silent := g.silent + 1, rebooted := g.silent + 1 > 4, replies := g.replies + [r])
  {
    hide Exec;
    ExecNothing(g);
    ExecMore(g, [], Take);
    ExecMore(g, [Take], GiveUp);
    assert [] + [Take] == [Take] && [Take] + [GiveUp] == [Take, GiveUp];
    assert g.queue[1..] == [];
    Reports(g.(queue := [], phase := GaveUp(e)));
    hide NoResponseBytes;
  }

  /** A request on a silent line is transmitted exactly three times, byte for byte the same; then its client gets
      exactly one no-response reply, with its own address and function, and it is no longer queued. */
  lemma SilentRequest(g: Gateway, sock: int, payload: seq<byte>)
    requires Resting(g) && |payload| <= 255
    ensures var h := Exec(g, [Accept(sock, payload)] + Try([]) + Try([]) + Try([]) + [Take, GiveUp]);
      && h.phase.Idle? && h.queue == [] && h.dropped == g.dropped && |h.sent| == |g.sent| + 3
      && h.sent[..|g.sent|] == g.sent
      && (forall i :: |g.sent| <= i < |h.sent| ==> Frame(h.sent[i].msg) == WithCrc(payload))
      && h.replies == g.replies + [LastReply(|g.accepted|, sock, WithCrc(payload))]
      && h.silent == g.silent + 1 && (h.rebooted <==> g.silent >= 4)
  {
    hide WithCrc, ToByte, Exec, Next, Message;
    Comes(g, sock, payload);
    var e := Entry(|g.accepted|, Message(sock, payload));
    var g0 := g.(accepted := g.accepted + [e.msg], queue := [e]);
    var e1 := Again(e);
    var e2 := Again(e1);
    var e3 := Again(e2);
    SilentTry(g0, e);
    var g1 := g0.(queue := [e1], sent := g0.sent + [e]);
    SilentTry(g1, e1);
    var g2 := g1.(queue := [e2], sent := g1.sent + [e1]);
    SilentTry(g2, e2);
    var g3 := g2.(queue := [e3], sent := g2.sent + [e2]);
    GivesUp(g3, e3);
    ExecAppend(g, [Accept(sock, payload)], Try([]));
    ExecAppend(g, [Accept(sock, payload)] + Try([]), Try([]));
    ExecAppend(g, [Accept(sock, payload)] + Try([]) + Try([]), Try([]));
    ExecAppend(g, [Accept(sock, payload)] + Try([]) + Try([]) + Try([]), [Take, GiveUp]);
    SameFrame(e, e1);
    SameFrame(e1, e2);
    SameFrame(e2, e3);
  }

  lemma SameFrame(e: Entry, f: Entry)
    requires |e.msg| >= 4 && f.msg == e.msg[1 := e.msg[1] + 1]
    ensures Frame(f.msg) == Frame(e.msg) && f.msg[0] == e.msg[0]
    ensures f.msg[2] == Frame(e.msg)[0] && f.msg[3] == Frame(e.msg)[1]
  {
  }

  function OneTry(sock: int, payload: seq<byte>, lineFree: bool, events: seq<PortEvent>): seq<Step> {
    [Accept(sock, payload)] + [Take, Transmit(lineFree), Listen(events)] + [GiveUp]
  }

  lemma ExecOneTry(g: Gateway, sock: int, payload: seq<byte>, lineFree: bool, events: seq<PortEvent>)
    requires AllSized(g)
    ensures Exec(g, OneTry(sock, payload, lineFree, events)) ==
      Next(Next(Next(Next(Next(g, Accept(sock, payload)), Take), Transmit(lineFree)), Listen(events)), GiveUp)
  {
    hide Next, AllSized, Exec;
    var a, t := [Accept(sock, payload)], [Take, Transmit(lineFree), Listen(events)];
    ExecNothing(g);
    ExecMore(g, [], Accept(sock, payload));
    assert [] + a == a;
    ExecAppend(g, a, t);
    ExecThree(Exec(g, a), Take, Transmit(lineFree), Listen(events));
    ExecMore(g, a + t, GiveUp);
  }

  /** A port that fails at once: one transmission, then the no-response reply, and no repeat. */
  lemma RequestOnFailingPort(g: Gateway, sock: int, payload: seq<byte>)
    requires Resting(g) && |payload| <= 255
    ensures var h := Exec(g, OneTry(sock, payload, true, [Failure]));
      && h.phase.Idle? && h.queue == [] && |h.sent| == |g.sent| + 1
      && Frame(h.sent[|g.sent|].msg) == WithCrc(payload)
      && h.replies == g.replies + [LastReply(|g.accepted|, sock, WithCrc(payload))]
  {
    hide WithCrc, ToByte, Exec, Next, Message;
    Comes(g, sock, payload);
    ExecOneTry(g, sock, payload, true, [Failure]);
    var e := Entry(|g.accepted|, Message(sock, payload));
    var g0 := g.(accepted := g.accepted + [e.msg], queue := [e]);
    Goes(g0, e);
    var w := g0.(queue := [], phase := Waiting(e), sent := g0.sent + [e]);
    FailsAtOnce(w);
    Reports(w.(phase := GaveUp(e)));
    SameFrame(e, Again(e));
  }

  /** A line that never gets free: no transmission, but the no-response reply. */
  lemma RequestOnBusyLine(g: Gateway, sock: int, payload: seq<byte>, events: seq<PortEvent>)
    requires Resting(g) && |payload| <= 255
    ensures var h := Exec(g, OneTry(sock, payload, false, events));
      && h.phase.Idle? && h.queue == [] && h.sent == g.sent
      && h.replies == g.replies + [LastReply(|g.accepted|, sock, WithCrc(payload))]
  {
    hide WithCrc, ToByte, Exec, Next, Message;
    Comes(g, sock, payload);
    ExecOneTry(g, sock, payload, false, events);
    var e := Entry(|g.accepted|, Message(sock, payload));
    var g0 := g.(accepted := g.accepted + [e.msg], queue := [e]);
    StaysOff(g0, e, events);
    Reports(g0.(queue := [], phase := GaveUp(e)));
    SameFrame(e, Again(e));
  }

  lemma StaysOff(g: Gateway, e: Entry, events: seq<PortEvent>)
    requires Single(g, e) && e.msg[1] <= 2
    ensures Next(Next(Next(g, Take), Transmit(false)), Listen(events)) == g.(queue := [], phase := GaveUp(e))
  {
    assert g.queue[1..] == [];
    hide Hear;
  }

  // ----- the packets of the standard -----

  /** Answers to reads (functions 1 to 4), to writes (5, 6, 15, 16) and error answers, as the MODBUS Application
      Protocol lays them out, are heard whole and nothing else is taken into them. */
  lemma StandardAnswersAreHeard(packet: seq<byte>)
    requires Passes(packet)
    ensures |packet| >= 5 && 1 <= ToInt(packet[1]) <= 4 && |packet| == 5 + ToInt(packet[2]) ==>
      Hear(Arriving(packet)) == Packet(packet)
    ensures |packet| == 8 && packet[1] in {5, 6, 15, 16} ==> Hear(Arriving(packet)) == Packet(packet)
    ensures |packet| == 5 && ToInt(packet[1]) >= 128 ==> Hear(Arriving(packet)) == Packet(packet)
  {
    hide Passes, Hear;
    if |packet| >= 5 {
      LengthOfHead(packet[..3]);
      if WholePacket(packet) {
        PacketIsHeard(packet);
      }
    }
  }

  /** Of any other function only three bytes are taken. */
  lemma OtherFunctionsAreCut(packet: seq<byte>)
    requires |packet| >= 3 && ToInt(packet[1]) < 128 && packet[1] !in {1, 2, 3, 4, 5, 6, 15, 16}
    ensures Hear(Arriving(packet)) == Packet(packet[..3])
  {
    hide Hear;
    LengthOfHead(packet[..3]);
    ArrivingIsHeard(packet);
  }

  /** The bytes of a packet, some of them read after a failing select. */
  ghost predicate Spelled(events: seq<PortEvent>, packet: seq<byte>) {
    |events| == |packet| && forall i :: 0 <= i < |packet| ==>
      events[i] == Byte(packet[i]) || events[i] == ByteAfterError(packet[i])
  }

  lemma {:induction false} HearSpelled(events: seq<PortEvent>, packet: seq<byte>, k: nat, ok: bool)
    requires WholePacket(packet) && Spelled(events, packet) && 1 <= k <= |packet|
    requires 3 <= k ==> ok == events[k - 1].Byte?
    ensures HearRest(events, packet[..k], if k < 3 then 3 else |packet|, ok) ==
      if events[|packet| - 1].Byte? then Packet(packet) else Discarded
    decreases |packet| - k
  {
    hide PacketLength;
    if k == |packet| {
      assert packet[..k] == packet;
    } else {
      HearSpelled(events, packet, k + 1, events[k].Byte?);
      assert packet[..k] + [packet[k]] == packet[..k + 1];
    }
  }

  /** Failing selects on the way do no harm, but the one before the last byte does: the request is dropped without
      a reply or a repeat, whatever the packet. */
  lemma DoubtfulEnd(w: Gateway, events: seq<PortEvent>, packet: seq<byte>)
    requires Attending(w) && WholePacket(packet) && Spelled(events, packet)
    ensures Hear(events) == if events[|packet| - 1].Byte? then Packet(packet) else Discarded
    ensures events[|packet| - 1].ByteAfterError? ==>
      Next(w, Listen(events)) == w.(phase := Idle, silent := 0, dropped := w.dropped + [w.phase.entry.id])
  {
    hide PacketLength, HearRest;
    HearSpelled(events, packet, 1, true);
    assert packet[..1] == [packet[0]];
    assert Event(events, 0) == events[0];
  }

  lemma LengthOfHead(head: seq<byte>)
    requires |head| == 3
    ensures ToInt(head[1]) >= 128 ==> PacketLength(head) == 5
    ensures 1 <= ToInt(head[1]) <= 4 ==> PacketLength(head) == 5 + ToInt(head[2])
    ensures head[1] in {5, 6, 15, 16} ==> PacketLength(head) == 8
    ensures ToInt(head[1]) < 128 && head[1] !in {1, 2, 3, 4, 5, 6, 15, 16} ==> PacketLength(head) == 3
  {
  }
}
