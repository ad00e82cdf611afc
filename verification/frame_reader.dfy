/** The two steps both threads build their reading from. */
module FrameReader {
  import opened Bytes
  import opened StandardCrc
  import opened TableCrc
  import opened WordBytes
  import opened StreamSocket
  import opened Framing

  /** One more receive, if bytes are still missing; false when the connection gives too few. */
  method Fetch(side: Side, sock: GenericSocket, got: seq<byte>, missing: int)
    returns (ok: bool, longer: seq<byte>)
    requires missing == Needed(side, got) - |got|
    modifies sock`incoming
    ensures |longer| >= |got| && forall i :: 0 <= i < |got| ==> longer[i] == got[i]
    ensures ok ==> |longer| >= Needed(side, got)
    ensures ok ==> Collect(side, longer, sock.incoming) == Collect(side, got, old(sock.incoming))
    ensures !ok ==> Collect(side, got, old(sock.incoming)) == Collected(false, longer, sock.incoming)
  {
    hide NoneEmpty, Needed, Gather;
    longer := got;
    ok := true;
    if missing > 0 {
      var data := sock.Recv(missing);
      Stage(side, got, old(sock.incoming));
      longer := got + data;
      ok := |data| >= missing;
    }
  }

  /** The comparison of the last two bytes with the CRC of the bytes before them. */
  method CrcMatches(frame: seq<byte>) returns (ok: bool)
    requires |frame| > CRC_SIZE
    ensures ok == Passes(frame)
  {
    hide CrcOf;
    var crc := VectorCrc(frame[..|frame| - CRC_SIZE]);
    var crcBytes := BytesOfWord(crc, true);
    ok := crcBytes[0] == frame[|frame| - 2] && crcBytes[1] == frame[|frame| - 1];
  }

  method AppendCrc(data: seq<byte>) returns (frame: seq<byte>)
    requires data != []
    ensures frame == WithCrc(data)
  {
    hide CrcOf;
    var crc := VectorCrc(data);
    var crcBytes := BytesOfWord(crc, true);
    frame := data + crcBytes;
  }
}
