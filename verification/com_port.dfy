/** The program of the emulated port: the handlers of the resource manager and the worker thread. */
module ComPortProgram {
  import opened Bytes
  import opened StandardCrc
  import opened Framing
  import opened FrameReader
  import opened ComPortModel

  datatype Status<T> = Ok(value: T) | Busy | BadDescriptor | NoMemory | Refused | Waiting

  function TotalWritten(writes: seq<Written>): nat {
    if |writes| == 0 then 0 else TotalWritten(writes[..|writes| - 1]) + |writes[|writes| - 1].data|
  }

  function TotalGiven(given: seq<Given>): nat {
    if |given| == 0 then 0 else TotalGiven(given[..|given| - 1]) + |given[|given| - 1].bytes|
  }

  /** The answers of which at least one byte was handed out. */
  function PacketsGiven(given: seq<Given>): nat {
    if |given| == 0 then 0
    else PacketsGiven(given[..|given| - 1]) + if |given[|given| - 1].bytes| > 0 then 1 else 0
  }

  lemma WrittenMore(writes: seq<Written>, w: Written)
    ensures TotalWritten(writes + [w]) == TotalWritten(writes) + |w.data|
  {
    assert (writes + [w])[..|writes|] == writes;
  }

  lemma GivenMore(given: seq<Given>, g: Given)
    ensures TotalGiven(given + [g]) == TotalGiven(given) + |g.bytes|
    ensures PacketsGiven(given + [g]) == PacketsGiven(given) + if |g.bytes| > 0 then 1 else 0
  {
    assert (given + [g])[..|given|] == given;
  }

  class ComPort {
    const env: Answering
    var deviceOpen: bool
    var openOcb: nat
    var requestBuffer: seq<byte>
    var responseBuffer: seq<byte>
    var requestPending: bool
    var responsePending: bool
    var bytesReceived: nat
    var bytesSent: nat
    var packetsReceived: nat
    var packetsSent: nat

    // the worker's own variables
    var telemetrRequest: seq<byte>
    var taken: bool
    var failuresCount: nat

    /** The state of the machine this object implements. */
    ghost var m: Port

    predicate Shows(pending: bool, buffer: seq<byte>, slot: Slot) {
      pending == slot.Full? && (pending ==> buffer == slot.note.data)
    }

    ghost predicate Valid()
      reads this
    {
      && deviceOpen == m.open && openOcb == m.ocb && (deviceOpen <==> openOcb != 0)
      && Shows(requestPending, requestBuffer, m.request)
      && Shows(responsePending, responseBuffer, m.response)
      && Shows(taken, telemetrRequest, m.hand)
      && failuresCount == m.failures
      && packetsReceived == |m.writes| && bytesReceived == TotalWritten(m.writes)
      && packetsSent == PacketsGiven(m.given) && bytesSent == TotalGiven(m.given)
    }

    constructor (env: Answering)
      ensures Valid() && m == CLOSED && this.env == env
      ensures bytesReceived == bytesSent == packetsReceived == packetsSent == 0
    {
      this.env := env;
      deviceOpen := false;
      openOcb := 0;
      requestBuffer, responseBuffer, telemetrRequest := [], [], [];
      requestPending, responsePending, taken := false, false, false;
      bytesReceived, bytesSent, packetsReceived, packetsSent := 0, 0, 0, 0;
      failuresCount := 0;
      m := CLOSED;
    }

    /** One client at a time; `granted` is the answer of the default open handler, 0 a failed allocation. */
    method IoOpen(ocb: nat, granted: bool) returns (status: Status<()>)
      requires Valid()
      modifies this
      ensures Valid() && m == Next(env, old(m), Open(ocb, granted))
      ensures status ==
        if old(m).open then Busy else if ocb == 0 then NoMemory else if granted then Ok(()) else Refused
    {
      hide Acceptable, AnswerTo, Passes, TotalWritten, TotalGiven, PacketsGiven;
      if deviceOpen {
        return Busy;
      }
      if ocb == 0 {
        return NoMemory;
      }
      if !granted {
        return Refused;
      }
      openOcb := ocb;
      deviceOpen := true;
      requestBuffer := [];
      responseBuffer := [];
      requestPending := false;
      responsePending := false;
      m := Next(env, m, Open(ocb, granted));
      status := Ok(());
    }

    /** The response, cut to the asked length; as long as there is none the client waits. */
    method IoRead(ocb: nat, asked: nat) returns (status: Status<seq<byte>>)
      requires Valid()
      modifies this
      ensures Valid() && m == Next(env, old(m), Read(ocb, asked))
      ensures status ==
        if !old(m).open || ocb != old(m).ocb then BadDescriptor
        else if old(m).response.Free? then Waiting
        else Ok(m.given[|m.given| - 1].bytes)
      ensures status.Ok? ==> |m.given| == |old(m).given| + 1
    {
      hide Acceptable, AnswerTo, Passes, TotalWritten, TotalGiven, PacketsGiven;
      if !deviceOpen || ocb != openOcb {
        return BadDescriptor;
      }
      if !responsePending {
        return Waiting;
      }
      var dataToSend := responseBuffer;
      responsePending := false;
      var nbytes := Least(|dataToSend|, asked);
      ghost var g := Given(m.response.note.id, m.session, asked, dataToSend[..nbytes]);
      GivenMore(m.given, g);
      m := Next(env, m, Read(ocb, asked));
      if nbytes == 0 {
        return Ok([]);
      }
      bytesSent := bytesSent + nbytes;
      packetsSent := packetsSent + 1;
      status := Ok(dataToSend[..nbytes]);
    }

    /** `data` is what could be read of the message of the client. */
    method IoWrite(ocb: nat, asked: nat, data: seq<byte>) returns (status: Status<nat>)
      requires Valid()
      modifies this
      ensures Valid()
      ensures m == if asked == 0 then old(m) else Next(env, old(m), Write(ocb, data))
      ensures status ==
        if !old(m).open || ocb != old(m).ocb then BadDescriptor
        else if asked == 0 then Ok(0)
        else Ok(|data|)
    {
      hide Acceptable, AnswerTo, Passes, TotalWritten, TotalGiven, PacketsGiven;
      if !deviceOpen || ocb != openOcb {
        return BadDescriptor;
      }
      if asked == 0 {
        return Ok(0);
      }
      requestBuffer := data;
      requestPending := true;
      bytesReceived := bytesReceived + |data|;
      packetsReceived := packetsReceived + 1;
      WrittenMore(m.writes, Written(m.session, data));
      m := Next(env, m, Write(ocb, data));
      status := Ok(|data|);
    }

    /** The part of the flush request under the lock of the request. */
    method DropRequest(ocb: nat)
      requires Valid() && deviceOpen && ocb == openOcb
      modifies this
      ensures Valid() && m == Next(env, old(m), FlushRequest(ocb))
    {
      requestBuffer := [];
      requestPending := false;
      m := Next(env, m, FlushRequest(ocb));
    }

    /** The part of the flush request under the lock of the response. */
    method DropResponse(ocb: nat)
      requires Valid() && deviceOpen && ocb == openOcb
      modifies this
      ensures Valid() && m == Next(env, old(m), FlushResponse(ocb))
    {
      responseBuffer := [];
      responsePending := false;
      m := Next(env, m, FlushResponse(ocb));
    }

    method IoFlush(ocb: nat) returns (status: Status<()>)
      requires Valid()
      modifies this
      ensures Valid()
      ensures m == Next(env, Next(env, old(m), FlushRequest(ocb)), FlushResponse(ocb))
      ensures status == if !old(m).open || ocb != old(m).ocb then BadDescriptor else Ok(())
    {
      if !deviceOpen || ocb != openOcb {
        return BadDescriptor;
      }
      DropRequest(ocb);
      DropResponse(ocb);
      status := Ok(());
    }

    /** Gives the device back; the response slot keeps what is in it. */
    method LetGo(ocb: nat)
      requires Valid()
      modifies this
      ensures Valid() && m == Next(env, old(m), Close(ocb))
      ensures responsePending == old(responsePending) && responseBuffer == old(responseBuffer)
    {
      hide Acceptable, AnswerTo, Passes, TotalWritten, TotalGiven, PacketsGiven;
      if ocb == openOcb {
        deviceOpen := false;
        openOcb := 0;
        requestBuffer := [];
        requestPending := false;
      }
      m := Next(env, m, Close(ocb));
    }

    method IoRelease(ocb: nat) returns (status: Status<()>)
      requires Valid()
      modifies this
      ensures Valid()
      ensures m == if old(m).open then Next(env, old(m), Close(ocb)) else old(m)
      ensures status == if !old(m).open || ocb != old(m).ocb then BadDescriptor else Ok(())
    {
      if !deviceOpen || ocb != openOcb {
        return BadDescriptor;
      }
      LetGo(ocb);
      status := Ok(());
    }

    method IoClose(ocb: nat)
      requires Valid()
      modifies this
      ensures Valid() && m == Next(env, old(m), Close(ocb))
    {
      LetGo(ocb);
    }

    /** The worker takes the pending request; false while it has to wait for one, or is stopped. */
    method TakeRequest() returns (ok: bool)
      requires Valid() && !taken
      modifies this
      ensures Valid() && m == Next(env, old(m), Take) && ok == taken
    {
      ok := failuresCount < FAILURES_COUNT && requestPending && deviceOpen;
      if ok {
        telemetrRequest := requestBuffer;
        requestPending := false;
        taken := true;
      }
      m := Next(env, m, Take);
    }

    /** The checks of the worker. `stray` is what stands behind the end of a short request with function 16. */
    method Check(request: seq<byte>, stray: byte) returns (ok: bool)
      ensures ok == Acceptable(request)
    {
      hide Passes;
      if |request| < REQUEST_HEADER_SIZE || !Supported(request[1]) {
        return false;
      }
      var partial := PartialSize(request[1]);
      var index := REQUEST_HEADER_SIZE + partial - 1;
      var count := if request[1] != 16 then 0 else if index < |request| then request[index] as int else stray as int;
      if |request| < REQUEST_HEADER_SIZE + partial + count + CRC_SIZE {
        return false;
      }
      ok := CrcMatches(request);
    }

    /** The worker checks the request in hand and stores the answer, or counts a failure. */
    method HandleRequest(stray: byte)
      requires Valid() && taken
      modifies this
      ensures Valid() && m == Next(env, old(m), Finish) && !taken
    {
      hide Passes, WithCrc, Needed, Supported, TotalWritten, TotalGiven, PacketsGiven;
      var request := telemetrRequest;
      var ok := Check(request, stray);
      taken := false;
      m := Next(env, m, Finish);
      if !ok {
        failuresCount := failuresCount + 1;
        return;
      }
      var answer := env.files(request[0], request[1]);
      if answer == [] {
        answer := env.errors(request[0], request[1]);
      } else {
        answer := AppendCrc(answer);
      }
      responseBuffer := answer;
      responsePending := true;
      failuresCount := 0;
    }
  }
}
