/** How the two ends of a connection cut frames out of the byte stream. */
module Framing {
  import opened Bytes
  import opened StandardCrc
  import opened CrcTheory
  import opened StreamSocket

  const CRC_SIZE := 2
  const REQUEST_HEADER_SIZE := 2
  const ANSWER_HEADER_SIZE := 3
  const WRITE_ANSWER_FRAGMENT := 3

  /** Who reads: a server reads requests, a device thread reads answers. */
  datatype Side = Requests | Answers

  predicate Supported(function_code: byte) {
    function_code == 4 || function_code == 5 || function_code == 6 || function_code == 16
  }

  function PartialSize(function_code: byte): nat {
    if function_code == 16 then 5 else 4
  }

  /** The length at which reading stops, as far as the bytes read so far can tell. */
  function Needed(side: Side, f: seq<byte>): (n: nat)
    ensures 2 <= n <= 264
  {
    match side
    case Requests =>
      if |f| < REQUEST_HEADER_SIZE then REQUEST_HEADER_SIZE
      else if !Supported(f[1]) then REQUEST_HEADER_SIZE
      else if f[1] != 16 then REQUEST_HEADER_SIZE + PartialSize(f[1]) + CRC_SIZE
      else if |f| < REQUEST_HEADER_SIZE + PartialSize(16) then REQUEST_HEADER_SIZE + PartialSize(16)
      else REQUEST_HEADER_SIZE + PartialSize(16) + f[6] as int + CRC_SIZE
    case Answers =>
      if |f| < ANSWER_HEADER_SIZE then ANSWER_HEADER_SIZE
      else if f[1] | 0x80 == f[1] then ANSWER_HEADER_SIZE + CRC_SIZE
      else if f[1] == 4 || f[1] == 3 then ANSWER_HEADER_SIZE + f[2] as int + CRC_SIZE
      else ANSWER_HEADER_SIZE + CRC_SIZE + WRITE_ANSWER_FRAGMENT
  }

  /** A frame with the length its own bytes announce, and for requests a known function. */
  predicate WellFormed(side: Side, f: seq<byte>) {
    |f| >= 5 && |f| == Needed(side, f) && (side == Requests ==> Supported(f[1]))
  }

  datatype Collected = Collected(complete: bool, frame: seq<byte>, rest: Segments)

  /** Read until the announced length is reached, keeping any bytes that came too early. */
  ghost function Collect(side: Side, got: seq<byte>, s: Segments): Collected
    decreases |Flat(s)|
  {
    var need := Needed(side, got);
    if |got| >= need then Collected(true, got, s)
    else
      RecvKeeps(s, need - |got|, RECV_BUFFER);
      var d := Gather(s, [], need - |got|, RECV_BUFFER);
      if |d.data| < need - |got| then Collected(false, got + d.data, d.rest)
      else Collect(side, got + d.data, d.rest)
  }

  /** One stage of the reading, whichever it is. */
  lemma Stage(side: Side, got: seq<byte>, s: Segments)
    requires |got| < Needed(side, got)
    ensures var missing := Needed(side, got) - |got|;
      var d := Gather(s, [], missing, RECV_BUFFER);
      Collect(side, got, s) ==
           if |d.data| < missing then Collected(false, got + d.data, d.rest) else Collect(side, got + d.data, d.rest)
  {
    hide Needed, Gather, Flat, NoneEmpty, Cut, AfterCut;
    RecvKeeps(s, Needed(side, got) - |got|, RECV_BUFFER);
  }

  lemma AlreadyComplete(side: Side, got: seq<byte>, s: Segments)
    requires |got| >= Needed(side, got)
    ensures Collect(side, got, s) == Collected(true, got, s)
  {
  }

  /** A proper prefix of a well-formed frame asks for more, but never for more than the frame. */
  lemma PrefixNeeds(side: Side, frame: seq<byte>, m: nat)
    requires WellFormed(side, frame) && m < |frame|
    ensures m < Needed(side, frame[..m]) <= |frame|
  {
  }

  /** Reading loses nothing: the bytes taken and the bytes left make up the stream. */
  lemma {:induction false} CollectKeeps(side: Side, got: seq<byte>, s: Segments)
    ensures var c := Collect(side, got, s);
      && c.frame + Flat(c.rest) == got + Flat(s)
      && |got| <= |c.frame| && c.frame[..|got|] == got
      && (c.complete ==> |c.frame| >= Needed(side, c.frame))
    ensures NoneEmpty(s) ==>
      var c := Collect(side, got, s);
      NoneEmpty(c.rest) && (!c.complete ==> c.rest == [])
    decreases |Flat(s)|
  {
    hide Needed, Gather, NoneEmpty, AfterCut, Cut;
    var need := Needed(side, got);
    if |got| < need {
      var d := Gather(s, [], need - |got|, RECV_BUFFER);
      RecvKeeps(s, need - |got|, RECV_BUFFER);
      assert got + (d.data + Flat(d.rest)) == (got + d.data) + Flat(d.rest);
      if |d.data| >= need - |got| {
        CollectKeeps(side, got + d.data, d.rest);
      }
    }
  }

  lemma ExtensionNeeds(side: Side, frame: seq<byte>, longer: seq<byte>)
    requires WellFormed(side, frame) && |longer| >= |frame| && longer[..|frame|] == frame
    ensures Needed(side, longer) == |frame|
  {
    assert forall i :: 0 <= i < |frame| ==> longer[i] == longer[..|frame|][i];
  }

  lemma MoreOfTheFrame(frame: seq<byte>, got: seq<byte>, data: seq<byte>, rest: seq<byte>)
    requires |got| < |frame| && got == frame[..|got|] && |data| + |rest| >= |frame| - |got|
    requires (data + rest)[..|frame| - |got|] == frame[|got|..]
    ensures |got + data| < |frame| ==>
      && got + data == frame[..|got + data|]
      && rest[..|frame| - |got + data|] == frame[|got + data|..]
    ensures |got + data| >= |frame| ==> (got + data)[..|frame|] == frame
  {
    var left := |frame| - |got|;
    var whole := data + rest;
    if |got + data| < |frame| {
      assert data == whole[..left][..|data|];
      assert rest[..left - |data|] == whole[..left][|data|..];
    } else {
      assert data[..left] == whole[..left];
      assert (got + data)[..|frame|] == got + data[..left];
    }
  }

  /** A stream that goes on with the rest of a well-formed frame yields a buffer exactly when no receive fails within
      the frame. The buffer starts with the frame, and is just the frame when a delivery ends where the frame ends. */
  lemma {:induction false} CollectFrame(side: Side, frame: seq<byte>, got: seq<byte>, s: Segments)
    requires WellFormed(side, frame)
    requires |got| < |frame| && got == frame[..|got|]
    requires |Flat(s)| >= |frame| - |got| && Flat(s)[..|frame| - |got|] == frame[|got|..]
    ensures var c := Collect(side, got, s);
      && (c.complete <==> Unbroken(s, |frame| - |got|))
      && (c.complete ==>
            && |c.frame| >= |frame| && c.frame[..|frame|] == frame
            && (|c.frame| == |frame| <==> Cut(s, |frame| - |got|))
            && (|c.frame| == |frame| ==> c.rest == AfterCut(s, |frame| - |got|)))
    decreases |Flat(s)|
  {
    hide Needed, Gather, NoneEmpty, AfterCut, Cut, WellFormed, Unbroken;
    var left := |frame| - |got|;
    var need := Needed(side, got);
    var asked := need - |got|;
    PrefixNeeds(side, frame, |got|);
    var d := Gather(s, [], asked, RECV_BUFFER);
    RecvKeeps(s, asked, RECV_BUFFER);
    if |d.data| < asked {
      if Unbroken(s, left) {
        UnbrokenLess(s, asked, left);
      }
    } else {
      assert d.data + Flat(d.rest) == Flat(s);
      var got' := got + d.data;
      MoreOfTheFrame(frame, got, d.data, Flat(d.rest));
      if |got'| < |frame| {
        CollectFrame(side, frame, got', d.rest);
        CutAdds(s, |d.data|, left - |d.data|);
        UnbrokenAdds(s, |d.data|, left - |d.data|);
      } else {
        ExtensionNeeds(side, frame, got');
        UnbrokenLess(s, left, |d.data|);
        if Cut(s, left) {
          GatherStopsAtCut(s, [], asked, RECV_BUFFER, left);
        }
      }
    }
  }

  /** The deliveries carry exactly these frames, and none of them runs across the end of a frame. */
  predicate Aligned(s: Segments, frames: seq<seq<byte>>)
    decreases |frames|
  {
    if frames == [] then s == []
    else
      var n := |frames[0]|;
      Cut(s, n) && Flat(s) == Flat(frames) && Aligned(AfterCut(s, n), frames[1..])
  }

  ghost predicate Valid(side: Side, frames: seq<seq<byte>>) {
    forall i :: 0 <= i < |frames| ==> WellFormed(side, frames[i]) && Passes(frames[i])
  }

  datatype Reading = Frame(bytes: seq<byte>) | Unsupported(device: byte, function_code: byte) | Broken

  /** Collect a buffer, then check its function and its CRC. */
  ghost function Read(side: Side, s: Segments): Reading
  {
    var c := Collect(side, [], s);
    CollectKeeps(side, [], s);
    if !c.complete then Broken
    else if side == Requests && !Supported(c.frame[1]) then Unsupported(c.frame[0], c.frame[1])
    else if Passes(c.frame) then Frame(c.frame)
    else Broken
  }

  ghost function Unread(side: Side, s: Segments): Segments
  {
    Collect(side, [], s).rest
  }

  /** What reading can make of a stream that starts with an accepted frame: nothing if a receive fails within the
      frame; the frame alone when a delivery ends with it; otherwise the frame with a tail glued on, accepted
      only if the tail leaves the CRC register at zero. */
  lemma ReadFrame(side: Side, frame: seq<byte>, s: Segments) returns (tail: seq<byte>)
    requires WellFormed(side, frame) && Passes(frame)
    requires |Flat(s)| >= |frame| && Flat(s)[..|frame|] == frame
    ensures !Unbroken(s, |frame|) ==> Read(side, s) == Broken
    ensures Unbroken(s, |frame|) ==>
      && Read(side, s) == (if Run(0, tail) == 0 then Frame(frame + tail) else Broken)
      && frame + tail + Flat(Unread(side, s)) == Flat(s)
      && (tail == [] <==> Cut(s, |frame|))
      && (tail == [] ==> Unread(side, s) == AfterCut(s, |frame|))
  {
    hide Run, Flat, NoneEmpty, Collect, Cut, AfterCut, Needed, Passes, Unbroken;
    var c := Collect(side, [], s);
    assert frame[0..] == frame;
    CollectFrame(side, frame, [], s);
    CollectKeeps(side, [], s);
    tail := [];
    if c.complete {
      tail := c.frame[|frame|..];
      assert c.frame == frame + tail;
      PassesWithTail(frame, tail);
      assert c.frame[1] == c.frame[..|frame|][1];
    }
  }

  /** Reading recovers exactly the frame if and only if a delivery ends where the frame ends and no receive
      fails before that. */
  lemma ReadRecoversIff(side: Side, frame: seq<byte>, s: Segments)
    requires WellFormed(side, frame) && Passes(frame)
    requires |Flat(s)| >= |frame| && Flat(s)[..|frame|] == frame
    ensures Read(side, s) == Frame(frame) <==> Cut(s, |frame|) && Unbroken(s, |frame|)
    ensures Cut(s, |frame|) && Unbroken(s, |frame|) ==> Unread(side, s) == AfterCut(s, |frame|)
  {
    hide NoneEmpty, Cut, AfterCut, Read, Unread, Flat, Passes, WellFormed, Run, Unbroken;
    var tail := ReadFrame(side, frame, s);
    if Unbroken(s, |frame|) {
      if tail == [] {
        assert frame + tail == frame;
        RunOfNothing();
      } else {
        assert |frame + tail| > |frame|;
      }
    }
  }

  lemma RunOfNothing()
    ensures Run(0, []) == 0
  {
  }

  lemma OneDelivery(side: Side, frame: seq<byte>, tail: seq<byte>)
    requires WellFormed(side, frame) && |frame| + |tail| <= RECV_BUFFER
    ensures Collect(side, [], [frame + tail]) == Collected(true, frame + tail, [])
  {
    var buffer := frame + tail;
    var need := Needed(side, []);
    assert need <= 3;
    hide Needed;
    ExtensionNeeds(side, frame, buffer);
    assert [buffer][1..] == [];
    assert RawRecv([buffer], RECV_BUFFER) == Delivery(buffer, []);
    assert [] + buffer == buffer;
    assert Gather([], buffer, need, RECV_BUFFER) == Delivery(buffer, []);
    assert Gather([buffer], [], need, RECV_BUFFER) == Delivery(buffer, []);
    assert Collect(side, buffer, []) == Collected(true, buffer, []);
  }

  /** Two frames that arrive in one delivery are both thrown away. */
  lemma PipelinedFramesAreLost(side: Side, first: seq<byte>, second: seq<byte>)
    requires WellFormed(side, first) && Passes(first) && Passes(second)
    requires |first| + |second| <= RECV_BUFFER
    ensures Read(side, [first + second]) == Broken && Unread(side, [first + second]) == []
  {
    hide Needed, Passes;
    OneDelivery(side, first, second);
    CoalescedFramesFail(first, second);
    assert (first + second)[1] == first[1];
  }

  lemma ReadConsumes(side: Side, s: Segments)
    ensures NoneEmpty(s) ==> NoneEmpty(Unread(side, s))
    ensures Flat(s) == Collect(side, [], s).frame + Flat(Unread(side, s))
    ensures |Flat(Unread(side, s))| <= |Flat(s)|
    ensures Read(side, s) != Broken ==> |Flat(Unread(side, s))| < |Flat(s)|
    ensures Read(side, s).Frame? ==> Flat(s) == Read(side, s).bytes + Flat(Unread(side, s))
    ensures Read(side, s).Frame? ==>
      && Passes(Read(side, s).bytes) && |Read(side, s).bytes| >= Needed(side, Read(side, s).bytes)
      && (side == Requests ==> Supported(Read(side, s).bytes[1]))
  {
    hide Needed, NoneEmpty, Passes, Collect, Supported;
    CollectKeeps(side, [], s);
    assert [] + Flat(s) == Flat(s);
    var c := Collect(side, [], s);
    assert |c.frame + Flat(c.rest)| == |c.frame| + |Flat(c.rest)|;
  }

  lemma ReadNothing(side: Side)
    ensures Read(side, []) == Broken && Unread(side, []) == []
  {
    var d := Gather([], [], Needed(side, []), RECV_BUFFER);
    assert d == Delivery([], []);
    assert Collect(side, [], []) == Collected(false, [], []);
  }

  /** The frames are taken from the stream in order, from places that do not overlap. */
  ghost predicate Pieces(frames: seq<seq<byte>>, stream: seq<byte>)
    decreases |frames|
  {
    frames == [] ||
    exists i :: 0 <= i && i + |frames[0]| <= |stream|
      && stream[i..][..|frames[0]|] == frames[0] && Pieces(frames[1..], stream[i + |frames[0]|..])
  }

  lemma {:induction false} PiecesLater(frames: seq<seq<byte>>, skipped: seq<byte>, stream: seq<byte>)
    requires Pieces(frames, stream)
    ensures Pieces(frames, skipped + stream)
  {
    if frames != [] {
      var n := |frames[0]|;
      var i :| 0 <= i && i + n <= |stream|
        && stream[i..][..n] == frames[0] && Pieces(frames[1..], stream[i + n..]);
      var j := |skipped| + i;
      assert (skipped + stream)[j..] == stream[i..];
      assert (skipped + stream)[j + n..] == stream[i + n..];
    }
  }

  lemma NoPieces(stream: seq<byte>)
    ensures Pieces([], stream)
  {
  }

  lemma PiecesFirst(frame: seq<byte>, frames: seq<seq<byte>>, stream: seq<byte>)
    requires Pieces(frames, stream)
    ensures Pieces([frame] + frames, frame + stream)
  {
    assert ([frame] + frames)[1..] == frames;
    assert (frame + stream)[0..][..|frame|] == frame && (frame + stream)[0 + |frame|..] == stream;
  }

  lemma {:induction false} AlignedFirst(side: Side, s: Segments, frames: seq<seq<byte>>)
    requires NoneEmpty(s) && frames != [] && Aligned(s, frames) && Valid(side, frames)
    ensures Read(side, s) == Frame(frames[0]) && Aligned(Unread(side, s), frames[1..])
    ensures NoneEmpty(Unread(side, s)) && Valid(side, frames[1..])
  {
    ReadConsumes(side, s);
    hide Read, Unread, NoneEmpty, WellFormed, Passes, Cut, Unbroken;
    NoneEmptyIsUnbroken(s, |frames[0]|);
    ReadRecoversIff(side, frames[0], s);
  }
}
