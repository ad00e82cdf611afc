/** The gateway program: the shared queue, the receiver thread and the hand-over of requests. */
module GatewayProgram {
  import opened Bytes
  import opened StandardCrc
  import opened TableCrc
  import opened CmdPools
  import opened GatewayModel
  import opened PortListener
  import opened GatewayImage

  class ModbusGateway {
    const outBuffer: CmdPool
    const output: array<byte>
    const input: array<byte>
    var size: nat
    var noResponse: bool
    var noResponseCount: nat
    var shutdown: bool
    var port: seq<seq<byte>>
    var clients: seq<Delivery>

    /** The state of the machine this object implements. */
    ghost var g: Gateway

    ghost predicate Arrays()
      reads this, outBuffer
    {
      && output.Length == input.Length == MODBUS_BUFFER_SIZE
      && output != input
      && {this as object, output, input} !! outBuffer.Repr
    }

    ghost predicate Valid()
      reads this, outBuffer, outBuffer.Repr, output, input
      ensures Valid() ==> AllSized(g)
    {
      && Arrays() && outBuffer.Valid()
      && AllSized(g) && Sound(g)
      && outBuffer.Contents == Messages(g.queue)
      && noResponse == g.phase.GaveUp?
      && (!g.phase.Idle? ==> 4 <= size <= MODBUS_BUFFER_SIZE && output[..size] == g.phase.entry.msg)
      && (g.phase.Waiting? ==> ZeroHeader(input))
      && noResponseCount == g.silent && shutdown == g.rebooted
      && port == Written(g.sent)
      && clients == Delivered(g.replies)
    }

    constructor ()
      ensures Valid() && g == START_STATE
      ensures fresh(outBuffer) && fresh(outBuffer.Repr) && fresh(output) && fresh(input)
    {
      outBuffer := new CmdPool();
      output := new byte[MODBUS_BUFFER_SIZE](_ => 0);
      input := new byte[MODBUS_BUFFER_SIZE](_ => 0);
      size := 0;
      noResponse := false;
      noResponseCount := 0;
      shutdown := false;
      port := [];
      clients := [];
      g := START_STATE;
    }

    /** Checks the repeat count as if it were an address, then copies the message into the queue. */
    method SendBuffer(buffer: array<byte>, size: nat) returns (ok: bool)
      requires outBuffer.Valid() && 2 <= size <= buffer.Length
      modifies outBuffer.Repr
      ensures outBuffer.Valid() && fresh(outBuffer.Repr - old(outBuffer.Repr))
      ensures ok == (old(buffer[1]) <= 247)
      ensures outBuffer.Contents == old(outBuffer.Contents) + if ok then [old(buffer[..size])] else []
    {
      if buffer[1] > MAX_ADDRESS {
        return false;
      }
      ok := outBuffer.Put(buffer, size);
    }

    /** A reply of the form every failure gets. */
    method SendNoResponse(sock: byte, addr: byte, cmd: byte)
      modifies this`clients
      ensures clients == old(clients) + [Delivery(sock, NoResponseBytes(addr, cmd))]
    {
      clients := clients + [Delivery(sock, [0, 0, 0, 0, 0, 3, addr, cmd | 0x80, 0x0B])];
    }

    /** The top of the loop when the last request was given up. */
    method ReportGivenUp()
      requires Valid() && g.phase.GaveUp? && !g.rebooted
      modifies this
      ensures Valid() && g == Next(old(g), GiveUp) && g.phase.Idle?
    {
      hide CmdPool.Valid, Buffer.Holds, Sound, AllSized, NoResponseBytes, Delivered, Messages, Written, Next;
      NextGivesUp(g);
      ghost var after := Next(g, GiveUp);
      assert output[0] == output[..size][0] && output[2] == output[..size][2] && output[3] == output[..size][3];
      noResponse := false;
      noResponseCount := noResponseCount + 1;
      SendNoResponse(output[0], output[2], output[3]);
      if noResponseCount > NO_RESPONSE_TRYS {
        shutdown := true;
      }
      g := after;
    }

    /** Fetch the oldest message; one that was repeated too often is given up at once. */
    method TakeNext() returns (ready: bool)
      requires Valid() && g.phase.Idle? && !g.rebooted
      modifies this, output, outBuffer.Repr
      ensures Valid() && outBuffer.Repr == old(outBuffer.Repr) && g == Next(old(g), Take)
      ensures !g.rebooted && ready == g.phase.Taken? && (ready || g.phase.Idle? || g.phase.GaveUp?)
    {
      hide CmdPool.Valid, Buffer.Holds, Sound, AllSized, Next, Messages, Delivered, Written;
      NextTakes(g);
      ghost var after := Next(g, Take);
      assert outBuffer.Contents == [] <==> g.queue == [];
      size := outBuffer.Get(output, MODBUS_BUFFER_SIZE);
      if size != 0 && output[1] > MAX_RETRY {
        noResponse := true;
      }
      ready := size != 0 && !noResponse;
      assert size > 1 ==> output[1] == output[..size][1];
      g := after;
    }

    /** Wait for a silent line, then write the frame; an error of the wait gives the request up. */
    method Transmit(lineFree: bool)
      requires Valid() && g.phase.Taken? && !g.rebooted
      modifies this, input
      ensures Valid() && g == Next(old(g), GatewayModel.Transmit(lineFree))
      ensures !g.rebooted && if lineFree then g.phase.Waiting? else g.phase.GaveUp?
    {
      hide CmdPool.Valid, Buffer.Holds, Sound, AllSized;
      NextKeepsSound(g, GatewayModel.Transmit(lineFree));
      ghost var e := g.phase.entry;
      if !lineFree {
        noResponse := true;
      } else {
        forall i | 0 <= i < HEADER {
          input[i] := 0;
        }
        assert output[2..size] == Frame(e.msg);
        WrittenAppend(g.sent, e);
        port := port + [output[2..size]];
      }
      g := Next(g, GatewayModel.Transmit(lineFree));
    }

    /** One more repeat on the count, then back to the end of the queue. */
    method Resend()
      requires Arrays() && outBuffer.Valid() && 4 <= size <= MODBUS_BUFFER_SIZE
      requires output[1] <= MAX_RETRY
      modifies output, outBuffer.Repr
      ensures outBuffer.Valid() && fresh(outBuffer.Repr - old(outBuffer.Repr)) && Arrays()
      ensures outBuffer.Contents == old(outBuffer.Contents) + [old(output[..size][1 := output[1] + 1])]
    {
      assert output[1] + 1 <= MAX_ADDRESS;
      output[1] := output[1] + 1;
      assert output[..size] == old(output[..size][1 := output[1] + 1]);
      var ok := SendBuffer(output, size);
    }

    /** Does the packet in the input buffer end with the CRC of the rest of it? */
    method CrcFits(n: nat) returns (ok: bool)
      requires input.Length == MODBUS_BUFFER_SIZE && 3 <= n <= 260
      ensures ok == Passes(Filled(input, n))
    {
      hide CrcOf;
      ghost var p := Filled(input, n);
      var crc := CRC(input, HEADER, n - 2);
      assert input[HEADER..HEADER + n][..n - 2] == input[HEADER..HEADER + (n - 2)];
      assert p[n - 2..] == [input[n + 4], input[n + 5]];
      ok := HiByte(crc) == input[n + 4] && LoByte(crc) == input[n + 5];
    }

    /** Put the length into the header and send header and packet, without the CRC, to the client. */
    method AnswerClient(n: nat)
      requires input.Length == MODBUS_BUFFER_SIZE && 3 <= n <= 260 && output.Length == MODBUS_BUFFER_SIZE
      requires output != input && ZeroHeader(input)
      modifies this`clients, input
      ensures clients == old(clients) + [Delivery(output[0], AnswerBytes(old(Filled(input, n))))]
    {
      ghost var p := Filled(input, n);
      input[5] := ToByte(n - 2);
      assert input[HEADER..HEADER + n] == p;
      AnswerInBuffer(input[..], n);
      hide ToByte, ToInt, AnswerBytes;
      var total := ToInt(input[5]) + HEADER;
      assert input[..][..total] == input[..total];
      clients := clients + [Delivery(output[0], input[..total])];
    }

    /** The request in hand goes back to the queue. */
    method RepeatRequest(heardByte: bool)
      requires Valid() && g.phase.Waiting? && !g.rebooted
      modifies this, output, outBuffer.Repr
      ensures Valid() && fresh(outBuffer.Repr - old(outBuffer.Repr))
      ensures Sized(old(g).phase.entry)
      ensures g == Outcome(old(g), old(g).phase.entry, if heardByte then Gap else Nothing)
      ensures !g.rebooted && (g.phase.Idle? || g.phase.GaveUp?)
    {
      hide CmdPool.Valid, Buffer.Holds, Sound, AllSized, Outcome, Messages, Written, Delivered;
      RepeatOutcome(g, heardByte);
      ghost var after := Outcome(g, g.phase.entry, if heardByte then Gap else Nothing);
      assert output[1] == output[..size][1];
      if heardByte {
        noResponseCount := 0;
      }
      Resend();
      g := after;
    }

    /** The request in hand is given up after a failure of the port. */
    method AbandonRequest(heardByte: bool)
      requires Valid() && g.phase.Waiting? && !g.rebooted
      modifies this
      ensures Valid()
      ensures Sized(old(g).phase.entry)
      ensures g == Outcome(old(g), old(g).phase.entry, if heardByte then MidFailed else FirstFailed)
      ensures !g.rebooted && (g.phase.Idle? || g.phase.GaveUp?)
    {
      hide CmdPool.Valid, Buffer.Holds, Sound, AllSized, Messages, Written, Delivered, Outcome;
      AbandonOutcome(g, heardByte);
      ghost var after := Outcome(g, g.phase.entry, if heardByte then MidFailed else FirstFailed);
      if heardByte {
        noResponseCount := 0;
      }
      noResponse := true;
      g := after;
    }

    /** The packet ended with a failing select: the request in hand is forgotten without a reply. */
    method Forget()
      requires Valid() && g.phase.Waiting? && !g.rebooted
      modifies this
      ensures Valid() && Sized(old(g).phase.entry)
      ensures g == Outcome(old(g), old(g).phase.entry, Discarded)
      ensures !g.rebooted && g.phase.Idle?
    {
      hide CmdPool.Valid, Buffer.Holds, Sound, AllSized, Messages, Written, Delivered, Outcome;
      DiscardOutcome(g);
      ghost var after := Outcome(g, g.phase.entry, Discarded);
      noResponseCount := 0;
      g := after;
    }

    /** The packet in the input buffer is the answer to the request in hand. */
    method PassOn(n: nat)
      requires Valid() && g.phase.Waiting? && !g.rebooted && 3 <= n <= 260 && Passes(Filled(input, n))
      modifies this, input
      ensures Valid() && Sized(old(g).phase.entry)
      ensures g == Outcome(old(g), old(g).phase.entry, Packet(old(Filled(input, n))))
      ensures !g.rebooted && (g.phase.Idle? || g.phase.GaveUp?)
    {
      hide CmdPool.Valid, Buffer.Holds, Sound, AllSized, Messages, Written, Delivered, AnswerBytes, Passes, Outcome;
      ghost var p := Filled(input, n);
      PacketOutcome(g, p);
      ghost var after := Outcome(g, g.phase.entry, Packet(p));
      assert output[0] == output[..size][0];
      AnswerClient(n);
      noResponseCount := 0;
      g := after;
    }

    /** The packet in the input buffer is broken: the request in hand is forgotten. */
    method Drop(n: nat)
      requires Valid() && g.phase.Waiting? && !g.rebooted && 3 <= n <= 260 && !Passes(Filled(input, n))
      modifies this, output
      ensures Valid() && Sized(old(g).phase.entry)
      ensures g == Outcome(old(g), old(g).phase.entry, Packet(Filled(input, n)))
      ensures !g.rebooted && (g.phase.Idle? || g.phase.GaveUp?)
    {
      hide CmdPool.Valid, Buffer.Holds, Sound, AllSized, Messages, Written, Delivered, AnswerBytes, Passes, Outcome;
      ghost var p := Filled(input, n);
      PacketOutcome(g, p);
      ghost var after := Outcome(g, g.phase.entry, Packet(p));
      output[1] := output[1] + 1;
      noResponseCount := 0;
      g := after;
    }

    /** A whole packet has arrived: pass it on if its CRC fits, drop the request otherwise. */
    method FinishRequest(n: nat)
      requires Valid() && g.phase.Waiting? && !g.rebooted && 3 <= n <= 260
      modifies this, output, input
      ensures Valid() && Sized(old(g).phase.entry)
      ensures g == Outcome(old(g), old(g).phase.entry, Packet(old(Filled(input, n))))
      ensures !g.rebooted && (g.phase.Idle? || g.phase.GaveUp?)
    {
      hide CmdPool.Valid, Buffer.Holds, Sound, AllSized, Messages, Written, Delivered, Passes, Outcome;
      var ok := CrcFits(n);
      if ok {
        PassOn(n);
      } else {
        Drop(n);
      }
    }

    /** Everything from the wait for the first byte to the end of the pass. */
    method Listen(events: seq<PortEvent>)
      requires Valid() && g.phase.Waiting? && !g.rebooted
      modifies this, output, input, outBuffer.Repr
      ensures Valid() && fresh(outBuffer.Repr - old(outBuffer.Repr))
      ensures g == Next(old(g), GatewayModel.Listen(events)) && !g.rebooted
      ensures g.phase.Idle? || g.phase.GaveUp?
    {
      hide CmdPool.Valid, Buffer.Holds, Sound, AllSized, Passes, AnswerBytes, Requeue;
      var heard, n := ListenToPort(input, events);
      match heard
      case Nothing => RepeatRequest(false);
      case FirstFailed => AbandonRequest(false);
      case Gap => RepeatRequest(true);
      case MidFailed => AbandonRequest(true);
      case Discarded => Forget();
      case Packet(p) => FinishRequest(n);
    }

    /** One trip round the loop of the receiver. */
    method ReceiverPass(lineFree: bool, events: seq<PortEvent>)
      requires Valid() && !g.rebooted && (g.phase.Idle? || g.phase.GaveUp?)
      modifies this, output, input, outBuffer.Repr
      ensures Valid() && fresh(outBuffer.Repr - old(outBuffer.Repr))
      ensures g == Exec(old(g), PassSteps(lineFree, events))
      ensures g.phase.Idle? || g.phase.GaveUp?
    {
      hide CmdPool.Valid, Buffer.Holds, Sound, AllSized, Next, Messages, Delivered, Written, Exec, PassSteps;
      ExecPass(g, lineFree, events);
      Stutter(g, lineFree, events);
      if noResponse {
        ReportGivenUp();
        Stutter(g, lineFree, events);
      }
      if shutdown {
        return;
      }
      var ready := TakeNext();
      Stutter(g, lineFree, events);
      if ready {
        Transmit(lineFree);
        Stutter(g, lineFree, events);
        if lineFree {
          Listen(events);
        }
      }
    }

    /** The receiver thread, until the machine is rebooted. */
    method Receiver(passes: seq<Pass>)
      requires Valid() && !g.rebooted && (g.phase.Idle? || g.phase.GaveUp?)
      modifies this, output, input, outBuffer.Repr
      ensures Valid() && fresh(outBuffer.Repr - old(outBuffer.Repr))
      ensures g == Exec(old(g), RunSteps(passes))
    {
      hide CmdPool.Valid, Buffer.Holds, Sound, AllSized, Next, Messages, Delivered, Written, PassSteps, Exec;
      RunNothing(g);
      var i := 0;
      while i < |passes| && !shutdown
        invariant 0 <= i <= |passes|
        invariant Valid() && fresh(outBuffer.Repr - old(outBuffer.Repr))
        invariant g.phase.Idle? || g.phase.GaveUp?
        invariant AllSized(old(g)) && g == Exec(old(g), RunSteps(passes[..i]))
      {
        RunOneMore(old(g), passes, i);
        ReceiverPass(passes[i].lineFree, passes[i].events);
        i := i + 1;
      }
      if shutdown {
        RebootEndsRun(old(g), passes, i);
      }
      assert passes[..|passes|] == passes;
    }

    /** The end of a trip round the loop of a client thread: CRC, service bytes, queue. */
    method HandOver(sock: int, inBuffer: array<byte>, size: nat)
      requires Valid() && !g.rebooted && inBuffer.Length == 264 && size <= 255
      requires inBuffer != output && inBuffer != input && inBuffer !in outBuffer.Repr
      modifies this, inBuffer, outBuffer.Repr
      ensures Valid() && fresh(outBuffer.Repr - old(outBuffer.Repr)) && inBuffer !in outBuffer.Repr
      ensures g == Next(old(g), Accept(sock, old(inBuffer[2..size + 2]))) && !g.rebooted
    {
      hide CmdPool.Valid, Buffer.Holds, Sound, AllSized, Next, Messages, Delivered, Written, Message;
      ghost var payload := inBuffer[2..size + 2];
      NextAccepts(g, sock, payload);
      ghost var after := Next(g, Accept(sock, payload));
      MakeMessage(sock, inBuffer, size);
      var ok := SendBuffer(inBuffer, size + 4);
      g := after;
    }

    method MakeMessage(sock: int, inBuffer: array<byte>, size: nat)
      requires inBuffer.Length == 264 && size <= 255
      modifies inBuffer
      ensures inBuffer[..size + 4] == Message(sock, old(inBuffer[2..size + 2]))
    {
      hide CrcOf;
      ghost var payload := inBuffer[2..size + 2];
      var crc := CRC(inBuffer, 2, size);
      inBuffer[size + 2] := HiByte(crc);
      inBuffer[size + 3] := LoByte(crc);
      inBuffer[0] := ToByte(sock);
      inBuffer[1] := 0;
      assert inBuffer[2..size + 2] == payload;
      MessageInBuffer(inBuffer[..], sock, payload);
      assert inBuffer[..][..size + 4] == inBuffer[..size + 4];
    }
  }
}
