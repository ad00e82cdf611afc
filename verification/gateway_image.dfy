/** What the gateway program shows of a machine state in its queue, on its port and to its clients. */
module GatewayImage {
  import opened Bytes
  import opened StandardCrc
  import opened GatewayModel
  import opened GatewayTheory
  import opened PortListener

  function Messages(queue: seq<Entry>): seq<seq<byte>> {
    seq(|queue|, i requires 0 <= i < |queue| => queue[i].msg)
  }

  /** The bytes written to the serial port: everything behind the two service bytes. */
  function Written(sent: seq<Entry>): seq<seq<byte>> {
    seq(|sent|, i requires 0 <= i < |sent| => Frame(sent[i].msg))
  }

  function Frame(msg: seq<byte>): seq<byte> {
    if |msg| < 2 then [] else msg[2..]
  }

  /** What goes to a client: the socket number from the queue and the bytes. */
  datatype Delivery = Delivery(sock: byte, bytes: seq<byte>)

  function Delivered(replies: seq<Reply>): seq<Delivery> {
    seq(|replies|, i requires 0 <= i < |replies| => Delivery(replies[i].sock, replies[i].bytes))
  }

  ghost predicate Sound(g: Gateway) {
    AllSized(g) && SentSized(g) && Faithful(g)
  }

  lemma NextKeepsSound(g: Gateway, step: Step)
    requires AllSized(g) && Sound(g)
    ensures AllSized(Next(g, step)) && Sound(Next(g, step))
  {
    NextKeepsFaithful(g, step);
    hide Faithful, Message, Hear, Outcome, Sized;
    if step.Listen? && g.phase.Waiting? {
      OutcomeKeepsSent(g, g.phase.entry, Hear(step.events));
    }
  }

  lemma OutcomeKeepsSent(g: Gateway, e: Entry, heard: Heard)
    requires |e.msg| >= 4
    ensures Outcome(g, e, heard).sent == g.sent
  {
  }

  lemma OutcomeKeepsSound(g: Gateway, heard: Heard)
    requires AllSized(g) && Sound(g) && g.phase.Waiting?
    ensures Sized(g.phase.entry)
    ensures AllSized(Outcome(g, g.phase.entry, heard)) && Sound(Outcome(g, g.phase.entry, heard))
  {
    OutcomeKeepsFaithful(g, g.phase.entry, heard);
    OutcomeKeepsSent(g, g.phase.entry, heard);
    hide Faithful, Passes, AnswerBytes;
  }

  /** A repeat is never refused, so what is heard too late or not at all leads back to the queue. */
  lemma RepeatOutcome(g: Gateway, heardByte: bool)
    requires AllSized(g) && Sound(g) && g.phase.Waiting?
    ensures var e := g.phase.entry;
      var h := if heardByte then g.(silent := 0) else g;
      && Sized(e) && e.msg[1] <= MAX_RETRY
      && Outcome(g, e, if heardByte then Gap else Nothing) == h.(phase := Idle, queue := g.queue + [Repeated(e)])
      && AllSized(h.(phase := Idle, queue := g.queue + [Repeated(e)]))
      && Sound(h.(phase := Idle, queue := g.queue + [Repeated(e)]))
      && Messages(g.queue + [Repeated(e)]) == Messages(g.queue) + [e.msg[1 := e.msg[1] + 1]]
  {
    var e := g.phase.entry;
    MessagesAppend(g.queue, Repeated(e));
    RepeatedIsCopy(g.accepted, e);
    OutcomeKeepsSound(g, if heardByte then Gap else Nothing);
    hide IsMessage, TrueReply, Messages;
  }

  lemma AbandonOutcome(g: Gateway, heardByte: bool)
    requires AllSized(g) && Sound(g) && g.phase.Waiting?
    ensures var e := g.phase.entry;
      var h := if heardByte then g.(silent := 0) else g;
      && Sized(e)
      && Outcome(g, e, if heardByte then MidFailed else FirstFailed) == h.(phase := GaveUp(e))
      && AllSized(h.(phase := GaveUp(e))) && Sound(h.(phase := GaveUp(e)))
  {
    OutcomeKeepsSound(g, if heardByte then MidFailed else FirstFailed);
  }

  lemma DiscardOutcome(g: Gateway)
    requires AllSized(g) && Sound(g) && g.phase.Waiting?
    ensures var e := g.phase.entry;
      && Sized(e)
      && Outcome(g, e, Discarded) == g.(phase := Idle, silent := 0, dropped := g.dropped + [e.id])
      && AllSized(Outcome(g, e, Discarded)) && Sound(Outcome(g, e, Discarded))
  {
    OutcomeKeepsSound(g, Discarded);
  }

  lemma PacketOutcome(g: Gateway, p: seq<byte>)
    requires AllSized(g) && Sound(g) && g.phase.Waiting? && |p| >= 2
    ensures var e := g.phase.entry;
      var r := Reply(e.id, e.msg[0], AnswerBytes(p), Answer(p));
      && Sized(e)
      && Outcome(g, e, Packet(p)) ==
         (if Passes(p) then g.(phase := Idle, silent := 0, replies := g.replies + [r])
          else g.(phase := Idle, silent := 0, dropped := g.dropped + [e.id]))
      && AllSized(Outcome(g, e, Packet(p))) && Sound(Outcome(g, e, Packet(p)))
      && Delivered(g.replies + [r]) == Delivered(g.replies) + [Delivery(r.sock, r.bytes)]
  {
    var e := g.phase.entry;
    OutcomeKeepsSound(g, Packet(p));
    DeliveredAppend(g.replies, Reply(e.id, e.msg[0], AnswerBytes(p), Answer(p)));
    hide Passes, AnswerBytes, Delivered, Sound;
  }

  lemma NextAccepts(g: Gateway, sock: int, payload: seq<byte>)
    requires AllSized(g) && Sound(g) && !g.rebooted && |payload| <= 255
    ensures var h := Next(g, Accept(sock, payload));
      var m := Message(sock, payload);
      && AllSized(h) && Sound(h)
      && h == g.(accepted := g.accepted + [m], queue := g.queue + [Entry(|g.accepted|, m)])
      && Messages(h.queue) == Messages(g.queue) + [m]
  {
    NextKeepsSound(g, Accept(sock, payload));
    MessagesAppend(g.queue, Entry(|g.accepted|, Message(sock, payload)));
    hide Sound, Message, Messages;
  }

  /** The steps of one trip round the loop of the receiver. */
  function PassSteps(lineFree: bool, events: seq<PortEvent>): seq<Step> {
    [GiveUp, Take, Transmit(lineFree), GatewayModel.Listen(events)]
  }

  lemma ExecPass(g: Gateway, lineFree: bool, events: seq<PortEvent>)
    requires AllSized(g)
    ensures Exec(g, PassSteps(lineFree, events)) ==
      Next(Next(Next(Next(g, GiveUp), Take), Transmit(lineFree)), GatewayModel.Listen(events))
  {
    hide Next, AllSized, Exec;
    var steps := PassSteps(lineFree, events);
    ExecMore(g, [GiveUp, Take, Transmit(lineFree)], GatewayModel.Listen(events));
    ExecMore(g, [GiveUp, Take], Transmit(lineFree));
    ExecMore(g, [GiveUp], Take);
    ExecMore(g, [], GiveUp);
    assert Exec(g, []) == g by {
      ExecNothing(g);
    }
    assert [GiveUp] == [] + [GiveUp];
    assert [GiveUp, Take] == [GiveUp] + [Take];
    assert [GiveUp, Take, Transmit(lineFree)] == [GiveUp, Take] + [Transmit(lineFree)];
    assert steps == [GiveUp, Take, Transmit(lineFree)] + [GatewayModel.Listen(events)];
  }

  lemma ExecNothing(g: Gateway)
    requires AllSized(g)
    ensures Exec(g, []) == g
  {
  }

  lemma ExecMore(g: Gateway, steps: seq<Step>, step: Step)
    requires AllSized(g)
    ensures Exec(g, steps + [step]) == Next(Exec(g, steps), step)
  {
    hide Next, AllSized;
    assert (steps + [step])[..|steps|] == steps;
  }

  lemma {:induction false} ExecAppend(g: Gateway, first: seq<Step>, second: seq<Step>)
    requires AllSized(g)
    ensures Exec(g, first + second) == Exec(Exec(g, first), second)
  {
    hide Next, AllSized;
    if second == [] {
      assert first + second == first;
    } else {
      var n := |second| - 1;
      assert (first + second)[..|first| + n] == first + second[..n];
      ExecAppend(g, first, second[..n]);
    }
  }

  /** Steps that are not possible change nothing. */
  lemma Stutter(g: Gateway, lineFree: bool, events: seq<PortEvent>)
    requires AllSized(g)
    ensures g.rebooted || !g.phase.GaveUp? ==> Next(g, GiveUp) == g
    ensures g.rebooted || !g.phase.Idle? ==> Next(g, Take) == g
    ensures g.rebooted || !g.phase.Taken? ==> Next(g, Transmit(lineFree)) == g
    ensures g.rebooted || !g.phase.Waiting? ==> Next(g, GatewayModel.Listen(events)) == g
  {
  }

  /** What the receiver meets on one trip round its loop. */
  datatype Pass = Pass(lineFree: bool, events: seq<PortEvent>)

  function RunSteps(passes: seq<Pass>): seq<Step> {
    if passes == [] then []
    else
      var last := passes[|passes| - 1];
      RunSteps(passes[..|passes| - 1]) + PassSteps(last.lineFree, last.events)
  }

  lemma RunNothing(g: Gateway)
    requires AllSized(g)
    ensures forall passes: seq<Pass> :: |passes| == 0 ==> Exec(g, RunSteps(passes)) == g
  {
  }

  lemma RunOneMore(g: Gateway, passes: seq<Pass>, i: nat)
    requires AllSized(g) && i < |passes|
    ensures Exec(g, RunSteps(passes[..i + 1])) ==
      Exec(Exec(g, RunSteps(passes[..i])), PassSteps(passes[i].lineFree, passes[i].events))
  {
    hide Next, AllSized, PassSteps, Exec;
    assert passes[..i + 1][..i] == passes[..i];
    ExecAppend(g, RunSteps(passes[..i]), PassSteps(passes[i].lineFree, passes[i].events));
  }

  lemma {:induction false} RebootEndsRun(g: Gateway, passes: seq<Pass>, i: nat)
    requires AllSized(g) && i <= |passes| && Exec(g, RunSteps(passes[..i])).rebooted
    ensures Exec(g, RunSteps(passes)) == Exec(g, RunSteps(passes[..i]))
    decreases |passes| - i
  {
    hide AllSized, PassSteps, Exec, RunSteps, Next;
    if i == |passes| {
      assert passes[..i] == passes;
    } else {
      var h, p := Exec(g, RunSteps(passes[..i])), passes[i];
      RunOneMore(g, passes, i);
      ExecPass(h, p.lineFree, p.events);
      Stutter(h, p.lineFree, p.events);
      RebootEndsRun(g, passes, i + 1);
    }
  }

  lemma NextTakes(g: Gateway)
    requires AllSized(g) && Sound(g) && g.phase.Idle? && !g.rebooted
    ensures AllSized(Next(g, Take)) && Sound(Next(g, Take))
    ensures |Messages(g.queue)| == |g.queue| && (g.queue != [] ==> Messages(g.queue)[0] == g.queue[0].msg)
    ensures if g.queue == [] || |g.queue[0].msg| > MODBUS_BUFFER_SIZE then Next(g, Take) == g
      else
        var e := g.queue[0];
        && Next(g, Take) == g.(queue := g.queue[1..], phase := if e.msg[1] > MAX_RETRY then GaveUp(e) else Taken(e))
        && 4 <= |e.msg|
        && Messages(g.queue[1..]) == Messages(g.queue)[1..]
  {
    NextKeepsSound(g, Take);
    hide Sound;
  }

  lemma NextGivesUp(g: Gateway)
    requires AllSized(g) && Sound(g) && g.phase.GaveUp? && !g.rebooted
    ensures AllSized(Next(g, GiveUp)) && Sound(Next(g, GiveUp))
    ensures var m := g.phase.entry.msg;
      var r := Reply(g.phase.entry.id, m[0], NoResponseBytes(m[2], m[3]), Silence);
      && Next(g, GiveUp) == g.(phase := Idle, silent := g.silent + 1, rebooted := g.silent + 1 > NO_RESPONSE_TRYS,
           replies := g.replies + [r])
      && Delivered(g.replies + [r]) == Delivered(g.replies) + [Delivery(r.sock, r.bytes)]
  {
    var m := g.phase.entry.msg;
    NextKeepsSound(g, GiveUp);
    DeliveredAppend(g.replies, Reply(g.phase.entry.id, m[0], NoResponseBytes(m[2], m[3]), Silence));
    hide Sound, NoResponseBytes, Delivered;
  }

  lemma MessagesAppend(queue: seq<Entry>, e: Entry)
    ensures Messages(queue + [e]) == Messages(queue) + [e.msg]
  {
  }

  lemma DeliveredAppend(replies: seq<Reply>, r: Reply)
    ensures Delivered(replies + [r]) == Delivered(replies) + [Delivery(r.sock, r.bytes)]
  {
  }

  lemma WrittenAppend(sent: seq<Entry>, e: Entry)
    ensures Written(sent + [e]) == Written(sent) + [Frame(e.msg)]
  {
  }

  /** A buffer with the length in its sixth byte holds the TCP answer from its start on. */
  lemma AnswerInBuffer(buffer: seq<byte>, n: nat)
    requires 3 <= n <= 260 && |buffer| == MODBUS_BUFFER_SIZE
    requires (forall i :: 0 <= i < 5 ==> buffer[i] == 0) && buffer[5] == ToByte(n - 2)
    ensures ToInt(buffer[5]) <= 255
    ensures buffer[..ToInt(buffer[5]) + HEADER] == AnswerBytes(buffer[HEADER..HEADER + n])
  {
    hide ToByte, ToInt, AnswerBytes, TcpHeader;
    var packet, length := buffer[HEADER..HEADER + n], (n - 2) % 256;
    AnswerParts(packet);
    HeaderBytes(buffer[..HEADER], buffer[5]);
    HeadAndBody(buffer, HEADER, n, length);
  }

  lemma HeaderBytes(h: seq<byte>, length: byte)
    requires |h| == HEADER && h[5] == length && forall i :: 0 <= i < 5 ==> h[i] == 0
    ensures h == TcpHeader(length)
  {
  }

  lemma AnswerParts(packet: seq<byte>)
    requires |packet| >= 2
    ensures var length := (|packet| - 2) % 256;
      && ToInt(ToByte(|packet| - 2)) == length
      && AnswerBytes(packet) == TcpHeader(ToByte(|packet| - 2)) + packet[..length]
  {
    ByteRoundTrip((|packet| - 2) % 256);
    LowBitsOnly(|packet| - 2);
  }

  lemma MessageInBuffer(buffer: seq<byte>, sock: int, payload: seq<byte>)
    requires |payload| + 4 <= |buffer| && buffer[2..|payload| + 2] == payload
    requires buffer[0] == ToByte(sock) && buffer[1] == 0
    requires buffer[|payload| + 2] == CheckBytes(payload)[0] && buffer[|payload| + 3] == CheckBytes(payload)[1]
    ensures buffer[..|payload| + 4] == Message(sock, payload)
  {
    hide CheckBytes, ToByte;
    var n := |payload| + 2;
    assert buffer[n..n + 2] == CheckBytes(payload);
    assert buffer[..2] == [ToByte(sock), 0];
    assert buffer[..n + 2] == buffer[..2] + (buffer[2..n] + buffer[n..n + 2]);
  }

  lemma HeadAndBody<T>(s: seq<T>, start: nat, n: nat, length: nat)
    requires length <= n && start + n <= |s|
    ensures s[..length + start] == s[..start] + s[start..start + n][..length]
  {
  }
}
