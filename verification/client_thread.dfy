/** The thread of one client of the gateway: TCP frames in, messages of the queue out. */
module ClientThread {
  import opened Bytes
  import opened Collections
  import opened GatewayModel
  import opened GatewayImage
  import opened GatewayProgram

  /** What one call of recv for one byte brings. */
  datatype RecvEvent = Got(b: byte) | Interrupted | Closed | Failed

  datatype Taking = Took(bytes: seq<byte>, rest: seq<RecvEvent>) | Broken

  /** What Receive does: one byte at a time, an interrupted call is made again. The end of the
      list of events is an end of the connection. */
  function Take(events: seq<RecvEvent>, size: nat): (t: Taking)
    ensures t.Took? ==> |t.bytes| == size && |t.rest| + size <= |events|
    decreases |events|
  {
    if size == 0 then Took([], events)
    else if |events| == 0 then Broken
    else
      match events[0]
      case Interrupted => Take(events[1..], size)
      case Closed => Broken
      case Failed => Broken
      case Got(b) =>
        match Take(events[1..], size - 1)
        case Broken => Broken
        case Took(bytes, rest) => Took([b] + bytes, rest)
  }

  predicate GoodHeader(h: seq<byte>) {
    |h| == 6 && forall i :: 0 <= i < 5 ==> h[i] == 0
  }

  /** The payloads a client thread gets out of its connection before it closes it. */
  function Payloads(events: seq<RecvEvent>): seq<seq<byte>>
    decreases |events|
  {
    match Take(events, 6)
    case Broken => []
    case Took(h, rest) =>
      if !GoodHeader(h) then []
      else
        match Take(rest, ToInt(h[5]))
        case Broken => []
        case Took(payload, rest') => [payload] + Payloads(rest')
  }

  // ----- what a client sends comes out again -----

  /** The bytes that come in before the connection ends or fails. */
  function Arrived(events: seq<RecvEvent>): seq<byte> {
    if |events| == 0 || events[0].Closed? || events[0].Failed? then []
    else if events[0].Got? then [events[0].b] + Arrived(events[1..])
    else Arrived(events[1..])
  }

  /** The parser seen from the bytes alone. */
  function Frames(bytes: seq<byte>): seq<seq<byte>>
    decreases |bytes|
  {
    if |bytes| < 6 || !GoodHeader(bytes[..6]) || |bytes| < 6 + ToInt(bytes[5]) then []
    else [bytes[6..6 + ToInt(bytes[5])]] + Frames(bytes[6 + ToInt(bytes[5])..])
  }

  function Sent(payloads: seq<seq<byte>>): seq<byte> {
    if |payloads| == 0 then []
    else TcpHeader(ToByte(|payloads[0]|)) + payloads[0] + Sent(payloads[1..])
  }

  lemma {:induction false} TakeIsPrefix(events: seq<RecvEvent>, size: nat)
    ensures Take(events, size).Took? <==> size <= |Arrived(events)|
    ensures Take(events, size).Took? ==>
      Take(events, size).bytes == Arrived(events)[..size] && Arrived(Take(events, size).rest) == Arrived(events)[size..]
    decreases |events|
  {
    if size > 0 && |events| > 0 {
      match events[0]
      case Interrupted => TakeIsPrefix(events[1..], size);
      case Closed =>
      case Failed =>
      case Got(b) => TakeIsPrefix(events[1..], size - 1);
    }
  }

  /** Interrupted calls and the way the bytes come in make no difference to what is parsed. */
  lemma {:induction false} PayloadsAreFrames(events: seq<RecvEvent>)
    ensures Payloads(events) == Frames(Arrived(events))
    decreases |events|
  {
    hide ToInt, Take, Arrived, GoodHeader;
    TakeIsPrefix(events, 6);
    var bytes := Arrived(events);
    match Take(events, 6)
    case Broken =>
    case Took(h, rest) =>
      var n := ToInt(h[5]);
      TakeIsPrefix(rest, n);
      assert h == bytes[..6] && h[5] == bytes[5];
      if GoodHeader(h) && Take(rest, n).Took? {
        PayloadsAreFrames(Take(rest, n).rest);
        assert bytes[6..][n..] == bytes[6 + n..] && bytes[6..][..n] == bytes[6..6 + n];
      }
  }

  /** The beginning of a frame, or something that is none because one of its first five bytes is not zero. */
  predicate Unfinished(cut: seq<byte>) {
    |cut| < 6 || (exists i :: 0 <= i < 5 && cut[i] != 0) || |cut| < 6 + ToInt(cut[5])
  }

  lemma UnfinishedGivesNothing(cut: seq<byte>)
    requires Unfinished(cut)
    ensures Frames(cut) == []
  {
    hide ToInt;
    if |cut| >= 6 && GoodHeader(cut[..6]) {
      assert forall i :: 0 <= i < 5 ==> cut[i] == cut[..6][i];
    }
  }

  /** Every request of a client comes out, in order and unchanged, whatever follows it. */
  lemma {:induction false} SentComesBack(payloads: seq<seq<byte>>, cut: seq<byte>)
    requires forall i :: 0 <= i < |payloads| ==> |payloads[i]| <= 255
    requires Unfinished(cut)
    ensures Frames(Sent(payloads) + cut) == payloads
  {
    hide ToInt, ToByte, TcpHeader, GoodHeader, Unfinished;
    if payloads == [] {
      UnfinishedGivesNothing(cut);
      assert Sent(payloads) + cut == cut;
    } else {
      var p, n := payloads[0], |payloads[0]|;
      var rest := Sent(payloads[1..]) + cut;
      var header := TcpHeader(ToByte(n));
      HeaderIsGood(ToByte(n));
      ByteRoundTrip(n);
      SentComesBack(payloads[1..], cut);
      Associate(header + p, Sent(payloads[1..]), cut);
      HeadOfThree(header, p, rest);
      assert (header + p + rest)[5] == header[5];
    }
  }

  lemma HeaderIsGood(length: byte)
    ensures GoodHeader(TcpHeader(length))
  {
  }

  lemma HeadOfThree<T>(a: seq<T>, b: seq<T>, c: seq<T>)
    ensures (a + b + c)[..|a|] == a
    ensures (a + b + c)[|a|..|a| + |b|] == b
    ensures (a + b + c)[|a| + |b|..] == c
  {
  }

  /** The messages a client thread puts into the queue, as steps of the machine. */
  function Accepts(sock: int, payloads: seq<seq<byte>>): seq<Step> {
    seq(|payloads|, i requires 0 <= i < |payloads| => Accept(sock, payloads[i]))
  }

  function Joined(got: seq<byte>, t: Taking): Taking {
    match t
    case Broken => Broken
    case Took(bytes, rest) => Took(got + bytes, rest)
  }

  lemma JoinedStep(got: seq<byte>, events: seq<RecvEvent>, left: nat)
    requires left > 0
    ensures |events| == 0 || events[0].Closed? || events[0].Failed? ==> Joined(got, Take(events, left)) == Broken
    ensures |events| > 0 && events[0].Interrupted? ==>
      Joined(got, Take(events, left)) == Joined(got, Take(events[1..], left))
    ensures |events| > 0 && events[0].Got? ==>
      Joined(got, Take(events, left)) == Joined(got + [events[0].b], Take(events[1..], left - 1))
  {
    if |events| > 0 && events[0].Got? {
      var t := Take(events[1..], left - 1);
      if t.Took? {
        assert got + ([events[0].b] + t.bytes) == got + [events[0].b] + t.bytes;
      }
    }
  }

  lemma JoinedEnds(got: seq<byte>, events: seq<RecvEvent>)
    ensures Joined(got, Take(events, 0)) == Took(got, events)
    ensures Joined([], Take(events, |got|)) == Take(events, |got|)
  {
  }

  /** Receive: false on the first failure or at the end of the connection. */
  method Receive(events: seq<RecvEvent>, buffer: array<byte>, start: nat, size: nat)
    returns (ok: bool, rest: seq<RecvEvent>)
    requires start + size <= buffer.Length
    modifies buffer
    ensures ok == Take(events, size).Took?
    ensures ok ==> Took(buffer[start..start + size], rest) == Take(events, size)
    ensures !ok ==> rest == []
    ensures forall i :: 0 <= i < start || start + size <= i < buffer.Length ==> buffer[i] == old(buffer[i])
  {
    hide Take, Joined;
    var p, left := start, size;
    rest := events;
    assert buffer[start..p] == [];
    JoinedEnds(buffer[start..start + size], events);
    while left > 0
      invariant start <= p <= start + size && left == start + size - p
      invariant forall i :: 0 <= i < start || start + size <= i < buffer.Length ==> buffer[i] == old(buffer[i])
      invariant Take(events, size) == Joined(buffer[start..p], Take(rest, left))
      decreases |rest|
    {
      ghost var before := buffer[start..p];
      JoinedStep(before, rest, left);
      if |rest| == 0 || rest[0].Closed? || rest[0].Failed? {
        return false, [];
      }
      if rest[0].Got? {
        buffer[p] := rest[0].b;
        assert buffer[start..p + 1] == before + [rest[0].b];
        p := p + 1;
        left := left - 1;
      }
      rest := rest[1..];
    }
    JoinedEnds(buffer[start..p], rest);
    ok := true;
  }

  lemma AcceptMore(g: Gateway, sock: int, payloads: seq<seq<byte>>, p: seq<byte>)
    requires AllSized(g)
    ensures Exec(g, Accepts(sock, payloads + [p])) == Next(Exec(g, Accepts(sock, payloads)), Accept(sock, p))
  {
    hide Next, AllSized, Exec;
    assert Accepts(sock, payloads + [p]) == Accepts(sock, payloads) + [Accept(sock, p)];
    ExecMore(g, Accepts(sock, payloads), Accept(sock, p));
  }

  lemma AcceptNothing(g: Gateway, sock: int)
    requires AllSized(g)
    ensures Exec(g, Accepts(sock, [])) == g
  {
  }

  lemma PayloadsStep(done: seq<seq<byte>>, events: seq<RecvEvent>)
    ensures var t := Take(events, 6);
      if t.Broken? || !GoodHeader(t.bytes) then done + Payloads(events) == done
      else
        var u := Take(t.rest, ToInt(t.bytes[5]));
        if u.Broken? then done + Payloads(events) == done
        else done + Payloads(events) == done + [u.bytes] + Payloads(u.rest)
  {
    hide Take, GoodHeader, ToInt;
  }

  /** The thread of a client: nothing for socket 0, otherwise header, payload and hand-over until the connection ends
      or a header is wrong. */
  method Process(gateway: ModbusGateway, sock: int, events: seq<RecvEvent>)
    requires gateway.Valid() && !gateway.g.rebooted
    modifies gateway, gateway.outBuffer.Repr
    ensures gateway.Valid() && fresh(gateway.outBuffer.Repr - old(gateway.outBuffer.Repr))
    ensures AllSized(old(gateway.g))
    ensures gateway.g == Exec(old(gateway.g), Accepts(sock, if sock == 0 then [] else Payloads(events)))
  {
    hide Payloads, Take, Next, Exec, Accepts, ToInt, ModbusGateway.Valid, GoodHeader;
    var inBuffer := new byte[264](_ => 0);
    var rest := events;
    ghost var done: seq<seq<byte>> := [];
    ghost var start := gateway.g;
    AcceptNothing(start, sock);
    if sock == 0 {
      return;
    }
    while true
      invariant gateway.Valid() && !gateway.g.rebooted && AllSized(start)
      invariant fresh(gateway.outBuffer.Repr - old(gateway.outBuffer.Repr))
      invariant inBuffer !in gateway.outBuffer.Repr && inBuffer != gateway.output && inBuffer != gateway.input
      invariant Payloads(events) == done + Payloads(rest)
      invariant gateway.g == Exec(start, Accepts(sock, done))
      decreases |rest|
    {
      PayloadsStep(done, rest);
      var ok, afterHeader := Receive(rest, inBuffer, 0, 6);
      if !ok {
        return;
      }
      var good := CheckHeader(inBuffer);
      if !good {
        return;
      }
      var size := ToInt(inBuffer[5]);
      ok, rest := Receive(afterHeader, inBuffer, 2, size);
      if !ok {
        return;
      }
      ghost var payload := inBuffer[2..size + 2];
      AcceptMore(start, sock, done, payload);
      gateway.HandOver(sock, inBuffer, size);
      done := done + [payload];
    }
  }

  method CheckHeader(inBuffer: array<byte>) returns (good: bool)
    requires inBuffer.Length >= 6
    ensures good == GoodHeader(inBuffer[..6])
  {
    good := !(inBuffer[0] != 0 || inBuffer[1] != 0 || inBuffer[2] != 0 || inBuffer[3] != 0 || inBuffer[4] != 0);
  }
}
