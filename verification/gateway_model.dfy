/** The old gateway as a machine of steps: clients hand in requests, one receiver works them off. */
module GatewayModel {
  import opened Bytes
  import opened StandardCrc

  const MAX_RETRY: byte := 2
  const MAX_ADDRESS: byte := 247
  const NO_RESPONSE_TRYS := 4
  const MODBUS_BUFFER_SIZE := 512

  /** A message of the queue: socket number, count of repeats, then the frame for the serial port. */
  datatype Entry = Entry(id: nat, msg: seq<byte>)

  /** What the receiver holds between two steps. */
  datatype Phase =
    | Idle
    | Taken(entry: Entry)
    | Waiting(entry: Entry)
    | GaveUp(entry: Entry)

  datatype Cause = Answer(packet: seq<byte>) | Silence

  datatype Reply = Reply(id: nat, sock: byte, bytes: seq<byte>, cause: Cause)

  datatype Gateway = Gateway(
    accepted: seq<seq<byte>>,
    queue: seq<Entry>,
    phase: Phase,
    sent: seq<Entry>,
    replies: seq<Reply>,
    dropped: seq<nat>,
    silent: nat,
    rebooted: bool)

  const START_STATE := Gateway([], [], Idle, [], [], [], 0, false)

  // ----- listening to the port -----

  /** A select may fail and leave the port in its set; then a byte is read all the same. */
  datatype PortEvent = Byte(b: byte) | ByteAfterError(b: byte) | Timeout | Failure

  datatype Heard = Nothing | FirstFailed | Gap | MidFailed | Discarded | Packet(bytes: seq<byte>)

  /** The k-th outcome of select and read; the port is silent once the list is used up. */
  function Event(events: seq<PortEvent>, k: nat): PortEvent {
    if k < |events| then events[k] else Timeout
  }

  /** The length a packet announces with its first three bytes. */
  function PacketLength(head: seq<byte>): (n: nat)
    requires |head| == 3
    ensures 3 <= n <= 260
  {
    if head[1] & 0x80 != 0 then 5
    else if head[1] == 1 || head[1] == 2 || head[1] == 3 || head[1] == 4 then head[2] as int + 5
    else if head[1] == 5 || head[1] == 6 || head[1] == 15 || head[1] == 16 then 8
    else 3
  }

  /** A packet counts only if the last select before its end went well. */
  function HearRest(events: seq<PortEvent>, got: seq<byte>, count: nat, ok: bool): Heard
    requires |got| < 3 ==> count == 3
    requires count <= 260
    decreases 260 - |got|
  {
    if |got| >= count then if ok then Packet(got) else Discarded
    else
      var e := Event(events, |got|);
      match e
      case Timeout => Gap
      case Failure => MidFailed
      case _ =>
        var got' := got + [e.b];
        HearRest(events, got', if |got'| == 3 then PacketLength(got') else count, e.Byte?)
  }

  predicate HeardByte(events: seq<PortEvent>) {
    Event(events, 0).Byte? || Event(events, 0).ByteAfterError?
  }

  function Hear(events: seq<PortEvent>): Heard {
    match Event(events, 0)
    case Timeout => Nothing
    case Failure => FirstFailed
    case _ => HearRest(events, [Event(events, 0).b], 3, true)
  }

  // ----- the messages -----

  /** What a client thread hands over for a request that came in on `sock`. */
  function Message(sock: int, payload: seq<byte>): (msg: seq<byte>)
    ensures |msg| == |payload| + 4 && msg[1] == 0
  {
    [ToByte(sock), 0] + WithCrc(payload)
  }

  function NoResponseBytes(addr: byte, cmd: byte): seq<byte> {
    [0, 0, 0, 0, 0, 3, addr, cmd | 0x80, 0x0B]
  }

  /** The six bytes in front of a frame on the TCP side: five zeros and the length. */
  function TcpHeader(length: byte): (h: seq<byte>)
    ensures |h| == 6 && h[5] == length && forall i :: 0 <= i < 5 ==> h[i] == 0
  {
    [0, 0, 0, 0, 0, length]
  }

  /** The TCP form of a packet: its length without the CRC is stored in one byte. */
  function AnswerBytes(packet: seq<byte>): seq<byte>
    requires |packet| >= 2
  {
    var n := (|packet| - 2) % 256;
    TcpHeader(ToByte(n)) + packet[..n]
  }

  function Repeated(e: Entry): Entry
    requires |e.msg| >= 2
  {
    Entry(e.id, e.msg[1 := e.msg[1] + 1])
  }

  // ----- the steps -----

  datatype Step =
    | Accept(sock: int, payload: seq<byte>)
    | GiveUp
    | Take
    | Transmit(lineFree: bool)
    | Listen(events: seq<PortEvent>)

  /** Put the request back with one more repeat on its count, unless the address check refuses it. */
  function Requeue(g: Gateway, e: Entry): Gateway
    requires |e.msg| >= 2
  {
    if e.msg[1] + 1 > MAX_ADDRESS then g.(phase := Idle, dropped := g.dropped + [e.id])
    else g.(phase := Idle, queue := g.queue + [Repeated(e)])
  }

  function Outcome(g: Gateway, e: Entry, heard: Heard): Gateway
    requires |e.msg| >= 4
  {
    match heard
    case Nothing => Requeue(g, e)
    case FirstFailed => g.(phase := GaveUp(e))
    case Gap => Requeue(g.(silent := 0), e)
    case MidFailed => g.(phase := GaveUp(e), silent := 0)
    case Discarded => g.(phase := Idle, silent := 0, dropped := g.dropped + [e.id])
    case Packet(p) =>
      if |p| >= 2 && Passes(p) then
        g.(phase := Idle, silent := 0,
           replies := g.replies + [Reply(e.id, e.msg[0], AnswerBytes(p), Answer(p))])
      else g.(phase := Idle, silent := 0, dropped := g.dropped + [e.id])
  }

  /** Long enough to hold an address and a function. */
  predicate Sized(e: Entry) { 4 <= |e.msg| }

  ghost predicate AllSized(g: Gateway) {
    && (forall i :: 0 <= i < |g.queue| ==> Sized(g.queue[i]))
    && (g.phase != Idle ==> Sized(g.phase.entry))
  }

  /** One step; a step that is not possible in this state changes nothing. */
  ghost function Next(g: Gateway, step: Step): (h: Gateway)
    requires AllSized(g)
    ensures AllSized(h)
  {
    if g.rebooted then g
    else
      match step
      case Accept(sock, payload) =>
        if |payload| > 255 then g
        else
          var msg := Message(sock, payload);
          g.(accepted := g.accepted + [msg], queue := g.queue + [Entry(|g.accepted|, msg)])
      case GiveUp =>
        if !g.phase.GaveUp? then g
        else
          var e := g.phase.entry;
          g.(phase := Idle, silent := g.silent + 1, rebooted := g.silent + 1 > NO_RESPONSE_TRYS,
             replies := g.replies + [Reply(e.id, e.msg[0], NoResponseBytes(e.msg[2], e.msg[3]), Silence)])
      case Take =>
        if !g.phase.Idle? || g.queue == [] || |g.queue[0].msg| > MODBUS_BUFFER_SIZE then g
        else
          var e := g.queue[0];
          g.(queue := g.queue[1..], phase := if e.msg[1] > MAX_RETRY then GaveUp(e) else Taken(e))
      case Transmit(lineFree) =>
        if !g.phase.Taken? then g
        else if !lineFree then g.(phase := GaveUp(g.phase.entry))
        else g.(phase := Waiting(g.phase.entry), sent := g.sent + [g.phase.entry])
      case Listen(events) =>
        if !g.phase.Waiting? then g else Outcome(g, g.phase.entry, Hear(events))
  }

  ghost function Exec(g: Gateway, steps: seq<Step>): (h: Gateway)
    requires AllSized(g)
    ensures AllSized(h)
  {
    if steps == [] then g else Next(Exec(g, steps[..|steps| - 1]), steps[|steps| - 1])
  }
}
