/** From a captured answer over the response file and the emulator back to the device thread. */
module Replay {
  import opened Bytes
  import opened StandardCrc
  import opened Collections
  import HexText
  import opened Capture
  import opened StreamSocket
  import opened Framing
  import opened EmulatorServer
  import opened DeviceThread
  import ComPortModel
  import ComPortRuns

  /** The words of the log, in whatever spelling, for the bytes of the frame. */
  ghost predicate Spells(words: seq<string>, frame: seq<byte>) {
    && |words| == |frame| && AllTokens(words)
    && forall i :: 0 <= i < |words| ==> HexText.TokenValue(words[i]) == ToInt(frame[i])
  }

  lemma {:induction false} SpelledBytes(words: seq<string>, frame: seq<byte>)
    requires Spells(words, frame)
    ensures TokenBytes(words) == frame
  {
    hide HexText.TokenValue, HexText.IsToken, ToByte, ToInt;
    if |words| > 0 {
      var n := |words| - 1;
      SpelledBytes(words[..n], frame[..n]);
      IntRoundTrip(frame[n]);
      assert frame == frame[..n] + [frame[n]];
    }
  }

  lemma SpellsSlice(words: seq<string>, frame: seq<byte>, a: nat, b: nat)
    requires Spells(words, frame) && a <= b <= |words|
    ensures Spells(words[a..b], frame[a..b])
  {
  }

  lemma PassingFrameIsItsOwnCopy(frame: seq<byte>)
    requires Passes(frame)
    ensures |frame| >= 2 && WithCrc(frame[..|frame| - 2]) == frame
  {
    hide CheckBytes;
    assert frame == frame[..|frame| - 2] + frame[|frame| - 2..];
  }

  /** The length of a captured read answer: header, data and CRC. */
  function AnswerLength(frame: seq<byte>): nat
    requires |frame| >= 3
  {
    3 + ToInt(frame[2]) + 2
  }

  /** The response file of a captured answer with a good CRC, with the CRC put back on,
      is the answer again exactly when its byte count is even. */
  lemma ReplayedAnswerIff(words: seq<string>, frame: seq<byte>)
    requires Spells(words, frame) && |frame| >= 3 && |frame| >= AnswerLength(frame)
    requires Passes(frame[..AnswerLength(frame)])
    ensures (WithCrc(Replayed(Convert(words, None).value)) == frame[..AnswerLength(frame)])
      <==> ToInt(frame[2]) % 2 == 0
  {
    hide Passes, Replayed, Convert, TokenBytes, CheckBytes, Prefixed,
         HexText.ParseLines, HexText.TokenValue, HexText.IsToken;
    var n := AnswerLength(frame);
    PassingFrameIsItsOwnCopy(frame[..n]);
    ReplayedIsFront(words, frame);
    var even := 2 * (ToInt(frame[2]) / 2);
    assert frame[..n][..n - 2] == frame[..n - 2];
    if even != ToInt(frame[2]) {
      assert |WithCrc(frame[..3 + even])| == 5 + even;
    }
  }

  lemma ReplayedIsFront(words: seq<string>, frame: seq<byte>)
    requires Spells(words, frame) && |frame| >= 3 && |frame| >= AnswerLength(frame)
    ensures Replayed(Convert(words, None).value) == frame[..3 + 2 * (ToInt(frame[2]) / 2)]
  {
    hide Spells, Replayed, TokenBytes, HexText.TokenValue, HexText.IsToken, Convert, AllTokens;
    SpelledByteCount(words, frame);
    var count := ToInt(frame[2]);
    var even := 2 * (count / 2);
    ReplayedIsWords(words, count);
    SpellsSlice(words, frame, 0, 1);
    SpelledBytes(words[0..1], frame[0..1]);
    SpellsSlice(words, frame, 1, 3);
    SpelledBytes(words[1..3], frame[1..3]);
    SpellsSlice(words, frame, 3, 3 + even);
    SpelledBytes(words[3..3 + even], frame[3..3 + even]);
    ThreeSlices(frame, 1, 3, 3 + even);
  }

  lemma ReplayedIsWords(words: seq<string>, count: nat)
    requires AllTokens(words) && |words| >= 3 + count && HexText.TokenValue(words[2]) == count
    ensures var even := 2 * (count / 2);
      Replayed(Convert(words, None).value) ==
        TokenBytes(words[0..1]) + TokenBytes(words[1..3]) + TokenBytes(words[3..3 + even])
  {
    hide Replayed, TokenBytes, HexText.ParseLines, HexText.TokenValue, HexText.IsToken, Prefixed, Registers;
    ReplayedIsEvenPart(words, None);
    var data := DataWords(words, count);
    assert data[..2 * (count / 2)] == words[3..3 + 2 * (count / 2)];
    assert words[..1] == words[0..1];
  }

  lemma SpelledByteCount(words: seq<string>, frame: seq<byte>)
    requires Spells(words, frame) && |frame| >= 3
    ensures AllTokens(words) && |words| == |frame| && HexText.TokenValue(words[2]) == ToInt(frame[2])
  {
  }

  lemma ThreeSlices<T>(s: seq<T>, a: nat, b: nat, c: nat)
    requires a <= b <= c <= |s|
    ensures s[0..a] + s[a..b] + s[b..c] == s[..c]
  {
  }

  lemma {:induction false} EndIsACut(s: Segments)
    requires NoneEmpty(s)
    ensures Cut(s, |Flat(s)|) && AfterCut(s, |Flat(s)|) == []
  {
    if |s| > 0 {
      assert |s[0]| > 0;
      EndIsACut(s[1..]);
    }
  }

  lemma ReadAnswerIsWellFormed(frame: seq<byte>)
    requires |frame| >= 3 && (frame[1] == 3 || frame[1] == 4) && |frame| == AnswerLength(frame)
    ensures WellFormed(Answers, frame)
  {
  }

  lemma OneFrameIsAligned(side: Side, s: Segments, frame: seq<byte>)
    requires NoneEmpty(s) && Flat(s) == frame && WellFormed(side, frame) && Passes(frame)
    ensures Aligned(s, [frame]) && Valid(side, [frame])
  {
    hide Passes, WellFormed, NoneEmpty, Flat, Cut, AfterCut;
    EndIsACut(s);
    FlatOfOne(frame);
    assert [frame][1..] == [];
  }

  lemma RequestIsLong(request: seq<byte>)
    requires WellFormed(Requests, request)
    ensures |request| >= 2
  {
  }

  lemma OneRequestIsServed(env: Environment, q: Segments, request: seq<byte>)
    requires NoneEmpty(q) && Flat(q) == request && WellFormed(Requests, request) && Passes(request)
    requires Reply(env, Frame(request)) != [] && forall k: nat :: env.sendWorks(k)
    ensures Serve(env, q, 0, 0) == Served([request], [Reply(env, Frame(request))], [])
  {
    hide Passes, WellFormed, NoneEmpty, Flat, Aligned, Valid, Serve, Reply;
    RequestIsLong(request);
    OneFrameIsAligned(Requests, q, request);
    ServeAligned(env, q, [request], 0, 0);
    assert [request][1..] == [] && Replies(env, []) == [];
    assert Replies(env, [request]) == [Reply(env, Frame(request))] + [];
  }

  /** A captured answer of function 3 or 4 with a good CRC and whole registers, put into the response file of
      the emulator: the server frames the request from its stream and sends exactly the bytes that were captured, and
      the device thread frames them from its own and publishes them, however request and answer are delivered. */
  lemma CaptureIsReplayed(words: seq<string>, frame: seq<byte>, env: Environment, request: seq<byte>, q: Segments,
                          p: Polling, s: Segments)
    requires Spells(words, frame) && |frame| >= 3 && |frame| >= AnswerLength(frame)
    requires Passes(frame[..AnswerLength(frame)]) && ToInt(frame[2]) % 2 == 0
    requires frame[1] == 3 || frame[1] == 4
    requires WellFormed(Requests, request) && Passes(request) && NoneEmpty(q) && Flat(q) == request
    requires env.file(request[0], request[1]) == Replayed(Convert(words, None).value)
    requires forall k: nat :: env.sendWorks(k)
    requires NoneEmpty(s) && Flat(s) == Flat(Serve(env, q, 0, 0).answers) && AlwaysSends(p)
    ensures Serve(env, q, 0, 0) == Served([request], [frame[..AnswerLength(frame)]], [])
    ensures Poll(p, s, 0, 0, 0).published == [frame[..AnswerLength(frame)]] && Poll(p, s, 0, 0, 0).unread == []
  {
    hide Passes, Replayed, Convert, Needed, NoneEmpty, Flat, Aligned, Valid, Poll, Serve, Spells, WellFormed, WithCrc,
         AlwaysSends;
    var answer := frame[..AnswerLength(frame)];
    RequestIsLong(request);
    ReplayedAnswerIff(words, frame);
    ReplayedIsFront(words, frame);
    assert env.file(request[0], request[1]) != [];
    assert Reply(env, Frame(request)) == answer;
    OneRequestIsServed(env, q, request);
    FlatOfOne(answer);
    ReadAnswerIsWellFormed(answer);
    OneFrameIsAligned(Answers, s, answer);
    PublishesAligned(p, s, [answer], 0, 0, 0);
  }

  lemma FlatOfOne(frame: seq<byte>)
    ensures Flat([frame]) == frame
  {
    assert [frame][1..] == [];
    assert Flat([]) == [];
  }

  lemma FileGivesItsCopy(content: seq<byte>, asked: nat, bytes: seq<byte>)
    requires ComPortRuns.CarriesFile(content, asked, bytes) && asked >= |content| + 2
    ensures bytes == WithCrc(content)
  {
    hide Passes, WithCrc;
    PassingFrameIsItsOwnCopy(bytes);
    assert bytes[..|bytes| - 2] == content;
  }

  /** Put into a response file of the emulated serial port, the same captured answer is what a client is handed out for
      its request, byte for byte, in every interleaving of the clients and the worker. */
  lemma PortReplaysCapture(words: seq<string>, frame: seq<byte>, env: ComPortModel.Answering,
                           steps: seq<ComPortModel.Step>, i: nat)
    requires Spells(words, frame) && |frame| >= 3 && |frame| >= AnswerLength(frame)
    requires Passes(frame[..AnswerLength(frame)]) && ToInt(frame[2]) % 2 == 0
    requires i < |ComPortModel.Exec(env, ComPortModel.CLOSED, steps).given|
    ensures var p := ComPortModel.Exec(env, ComPortModel.CLOSED, steps);
      var g := p.given[i];
      && g.id < |p.writes|
      && var w := p.writes[g.id].data;
         && |w| >= 2
         && (env.files(w[0], w[1]) == Replayed(Convert(words, None).value) && g.asked >= AnswerLength(frame)
             ==> g.bytes == frame[..AnswerLength(frame)])
  {
    hide ComPortModel.Exec, ComPortModel.Acceptable, ComPortRuns.CarriesFile, Passes, WithCrc, Replayed, Convert,
         Spells;
    ComPortRuns.ResponsesCarryFiles(env, steps, i);
    ReplayedAnswerIff(words, frame);
    ReplayedIsFront(words, frame);
    var p := ComPortModel.Exec(env, ComPortModel.CLOSED, steps);
    var g := p.given[i];
    var w := p.writes[g.id].data;
    var content := env.files(w[0], w[1]);
    if content == frame[..AnswerLength(frame) - 2] && g.asked >= AnswerLength(frame) {
      FileGivesItsCopy(content, g.asked, g.bytes);
    }
  }
}
