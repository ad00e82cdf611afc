/** The receive loop of the gateway: select, read one byte, and find out how many to expect. */
module PortListener {
  import opened Bytes
  import opened GatewayModel

  const HEADER := 6

  /** The part of the input buffer behind the TCP header that is filled so far. */
  function Filled(input: array<byte>, n: nat): seq<byte>
    requires HEADER + n <= input.Length
    reads input
  {
    input[HEADER..HEADER + n]
  }

  ghost predicate ZeroHeader(input: array<byte>)
    requires HEADER <= input.Length
    reads input
  {
    forall i :: 0 <= i < HEADER ==> input[i] == 0
  }

  method StoreByte(input: array<byte>, n: nat, b: byte)
    requires HEADER + n < input.Length && ZeroHeader(input)
    modifies input
    ensures ZeroHeader(input) && Filled(input, n + 1) == old(Filled(input, n)) + [b]
  {
    ghost var got := Filled(input, n);
    input[HEADER + n] := b;
    assert Filled(input, n + 1)[..n] == got;
  }

  lemma HearMore(events: seq<PortEvent>, got: seq<byte>, count: nat, ok: bool)
    requires |got| < count <= 260 && (|got| < 3 ==> count == 3)
    ensures var e := Event(events, |got|);
      && (e.Timeout? ==> HearRest(events, got, count, ok) == Gap)
      && (e.Failure? ==> HearRest(events, got, count, ok) == MidFailed)
      && (!e.Timeout? && !e.Failure? ==>
            var got' := got + [e.b];
            HearRest(events, got, count, ok) ==
              HearRest(events, got', if |got'| == 3 then PacketLength(got') else count, e.Byte?))
  {
    hide PacketLength;
  }

  lemma HeardEnough(events: seq<PortEvent>, got: seq<byte>, ok: bool)
    requires 3 <= |got| <= 260
    ensures HearRest(events, got, |got|, ok) == if ok then Packet(got) else Discarded
  {
  }

  /** Fills the buffer from position 6 on; the header stays zero and no index leaves the buffer. */
  method ListenToPort(input: array<byte>, events: seq<PortEvent>) returns (heard: Heard, n: nat)
    requires input.Length == MODBUS_BUFFER_SIZE
    requires ZeroHeader(input)
    modifies input
    ensures heard == Hear(events)
    ensures ZeroHeader(input)
    ensures heard.Packet? ==> 3 <= n <= 260 && heard.bytes == Filled(input, n)
  {
    hide PacketLength, HearRest, ZeroHeader;
    n := 0;
    var first := Event(events, 0);
    match first
    case Timeout =>
      heard := Nothing;
    case Failure =>
      heard := FirstFailed;
    case _ =>
      StoreByte(input, 0, first.b);
      assert Filled(input, 1) == [first.b];
      var count, ok := 3, true;
      n := 1;
      while n < count
        invariant 1 <= n <= count <= 260 && 3 <= count && (n < 3 ==> count == 3)
        invariant ZeroHeader(input)
        invariant HearRest(events, Filled(input, n), count, ok) == Hear(events)
        decreases 260 - n
      {
        HearMore(events, Filled(input, n), count, ok);
        var e := Event(events, n);
        if e.Timeout? {
          return Gap, n;
        }
        if e.Failure? {
          return MidFailed, n;
        }
        StoreByte(input, n, e.b);
        ok := e.Byte?;
        if n == 2 {
          count := PacketLength(Filled(input, 3));
        }
        n := n + 1;
      }
      HeardEnough(events, Filled(input, n), ok);
      heard := if ok then Packet(Filled(input, n)) else Discarded;
  }
}
