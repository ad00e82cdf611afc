/** When server and device thread recover exactly the frames that were sent. */
module StreamTheory {
  import opened Bytes
  import opened StandardCrc
  import opened StreamSocket
  import opened Framing
  import opened EmulatorServer
  import DeviceThread

  lemma SomethingIsCollected(side: Side, s: Segments)
    requires |s| > 0 && |s[0]| > 0
    ensures |Collect(side, [], s).frame| > 0
  {
    hide Collect, Needed, Gather;
    var need := Needed(side, []);
    NeedsSomething(side);
    CollectStarts(side, s);
    var d := Gather(s, [], need, RECV_BUFFER);
    FirstDelivery(s, need, RECV_BUFFER);
    if |d.data| >= need {
      CollectKeeps(side, [] + d.data, d.rest);
    }
  }

  lemma NeedsSomething(side: Side)
    ensures 0 < Needed(side, []) <= RECV_BUFFER
  {
  }

  lemma CollectStarts(side: Side, s: Segments)
    ensures var need := Needed(side, []);
      0 < need <= RECV_BUFFER
      && var d := Gather(s, [], need, RECV_BUFFER);
         Collect(side, [], s) ==
           if |d.data| < need then Collected(false, [] + d.data, d.rest) else Collect(side, [] + d.data, d.rest)
  {
    NeedsSomething(side);
    hide Needed, Gather;
    Stage(side, [], s);
  }

  lemma FirstDelivery(s: Segments, asked: nat, size: nat)
    requires |s| > 0 && |s[0]| > 0 && 0 < asked <= size
    ensures |Gather(s, [], asked, size).data| > 0
  {
    var d := RawRecv(s, size);
    assert |d.data| > 0;
    GatherKeeps(d.rest, [] + d.data, asked, size);
  }

  /** A receive that fails at once costs one attempt and nothing of the stream. */
  lemma ReadFailure(side: Side, s: Segments)
    requires |s| > 0 && s[0] == []
    ensures Read(side, s) == Broken && Unread(side, s) == s[1..]
  {
    hide Needed, Collect;
    CollectStarts(side, s);
    assert RawRecv(s, RECV_BUFFER) == Delivery([], s[1..]);
  }

  lemma FlatFirst(first: seq<byte>, rest: Segments)
    ensures Flat([first] + rest) == first + Flat(rest)
  {
    assert ([first] + rest)[1..] == rest;
  }

  /** The accepted requests together are never longer than the stream. */
  lemma {:induction false} RequestsFit(env: Environment, s: Segments, failures: nat, attempts: nat)
    ensures |Flat(Serve(env, s, failures, attempts).requests)| <= |Flat(s)|
    decreases |Flat(s)|, SOCKET_FAILURES_COUNT - failures
  {
    hide NoneEmpty, Read, Unread, Flat, Passes, Supported, Needed, Serve, Delivered, Reply, Collect, FailuresAfter;
    ServeStep(env, s, failures, attempts);
    NothingIsEmpty();
    if failures < SOCKET_FAILURES_COUNT {
      ReadConsumes(Requests, s);
      FailuresGrow(env, s, failures, attempts);
      var r, rest := Read(Requests, s), Unread(Requests, s);
      var f, a := FailuresAfter(env, r, failures, attempts), AttemptsAfter(env, r, attempts);
      RequestsFit(env, rest, f, a);
      if r.Frame? {
        FlatFirst(r.bytes, Serve(env, rest, f, a).requests);
      }
    }
  }

  lemma NothingIsEmpty()
    ensures Flat([]) == []
  {
  }

  lemma FramesAreLong(side: Side, frame: seq<byte>)
    requires WellFormed(side, frame)
    ensures |frame| >= 5
  {
  }

  /** The requests come in one by one: before each of them fewer than three attempts in a row have failed, a failed
      send counting as one; no receive fails within a request; and a delivery ends where the request ends. */
  ghost predicate WellDelivered(env: Environment, s: Segments, frames: seq<seq<byte>>, failures: nat, attempts: nat)
    decreases |frames|, |s|
  {
    frames == [] ||
    (&& failures < SOCKET_FAILURES_COUNT && s != [] && |frames[0]| >= 2
     && if s[0] == [] then WellDelivered(env, s[1..], frames, failures + 1, attempts)
        else
          var n, r := |frames[0]|, Frame(frames[0]);
          && Cut(s, n) && Unbroken(s, n)
          && WellDelivered(env, AfterCut(s, n), frames[1..],
                           FailuresAfter(env, r, failures, attempts), AttemptsAfter(env, r, attempts)))
  }

  lemma AcceptedAreLong(env: Environment, s: Segments, failures: nat, attempts: nat)
    ensures var requests := Serve(env, s, failures, attempts).requests;
      forall i :: 0 <= i < |requests| ==> |requests[i]| > 0
  {
    hide Serve, Needed, Supported, CheckBytes;
    ServeOnlyAccepted(env, s, failures, attempts);
    var requests := Serve(env, s, failures, attempts).requests;
    forall i | 0 <= i < |requests|
      ensures |requests[i]| > 0
    {
      assert Accepted(requests[i]);
    }
  }

  lemma NothingServed(env: Environment, s: Segments, failures: nat, attempts: nat)
    requires Flat(s) == []
    ensures Serve(env, s, failures, attempts).requests == []
  {
    hide Serve, Flat;
    RequestsFit(env, s, failures, attempts);
    AcceptedAreLong(env, s, failures, attempts);
    NotEmptyIsLong(Serve(env, s, failures, attempts).requests);
  }

  lemma NotEmptyIsLong(frames: seq<seq<byte>>)
    requires forall i :: 0 <= i < |frames| ==> |frames[i]| > 0
    ensures |frames| > 0 ==> |Flat(frames)| > 0
  {
  }

  lemma AfterFrame(s: Segments, frames: seq<seq<byte>>)
    requires frames != [] && Flat(s) == Flat(frames) && Cut(s, |frames[0]|)
    ensures Flat(AfterCut(s, |frames[0]|)) == Flat(frames[1..])
  {
    hide Cut, AfterCut, Flat;
    FlatAfterCut(s, |frames[0]|);
    FlatFirst(frames[0], frames[1..]);
    assert frames == [frames[0]] + frames[1..];
    assert Flat(s)[|frames[0]|..] == Flat(frames[1..]);
  }

  lemma {:induction false} FlatAfterCut(s: Segments, n: nat)
    requires Cut(s, n)
    ensures n <= |Flat(s)| && Flat(AfterCut(s, n)) == Flat(s)[n..]
    ensures NoneEmpty(s) ==> NoneEmpty(AfterCut(s, n))
    decreases |s|
  {
    if n > 0 {
      FlatAfterCut(s[1..], n - |s[0]|);
      assert Flat(s)[n..] == Flat(s[1..])[n - |s[0]|..];
    }
  }

  /** One request at the front of the stream: it is the first to be accepted exactly when it comes whole and alone. */
  lemma FirstRequest(env: Environment, s: Segments, frames: seq<seq<byte>>, failures: nat, attempts: nat)
    requires frames != [] && Flat(s) == Flat(frames) && Valid(Requests, frames)
    requires failures < SOCKET_FAILURES_COUNT && |s| > 0 && |s[0]| > 0
    ensures var n, r := |frames[0]|, Frame(frames[0]);
      Serve(env, s, failures, attempts).requests == frames <==>
        && Cut(s, n) && Unbroken(s, n)
        && Serve(env, AfterCut(s, n),
                 FailuresAfter(env, r, failures, attempts), AttemptsAfter(env, r, attempts)).requests == frames[1..]
  {
    hide NoneEmpty, Read, Unread, Flat, Passes, Supported, Needed, Serve, Delivered, Reply, WellFormed,
         Collect, Cut, AfterCut, FailuresAfter, AttemptsAfter, Unbroken;
    ServeStep(env, s, failures, attempts);
    ReadConsumes(Requests, s);
    var frame, r, rest := frames[0], Read(Requests, s), Unread(Requests, s);
    var f, a := FailuresAfter(env, r, failures, attempts), AttemptsAfter(env, r, attempts);
    var later := Serve(env, rest, f, a).requests;
    FlatFirst(frame, frames[1..]);
    assert frames == [frame] + frames[1..];
    assert Flat(s)[..|frame|] == frame;
    ReadRecoversIff(Requests, frame, s);
    if r == Frame(frame) {
      assert ([frame] + later)[1..] == later;
    } else if r.Frame? {
      assert ([r.bytes] + later)[0] == r.bytes;
    } else {
      RequestsFit(env, rest, f, a);
      SomethingIsCollected(Requests, s);
    }
  }

  /** For any concatenation of well-formed requests with good CRCs, however it arrives and whatever fails, the server
      recovers exactly that list if and only if the requests are well delivered. */
  lemma {:induction false} ServerRecoversIff(env: Environment, s: Segments, frames: seq<seq<byte>>,
                                             failures: nat, attempts: nat)
    requires Flat(s) == Flat(frames) && Valid(Requests, frames)
    ensures (Serve(env, s, failures, attempts).requests == frames)
      <==> WellDelivered(env, s, frames, failures, attempts)
    decreases |frames|, |s|
  {
    hide NoneEmpty, Read, Unread, Flat, Passes, Supported, Needed, Serve, Delivered, Reply, WellFormed,
         Collect, Cut, AfterCut, FailuresAfter, AttemptsAfter, Unbroken;
    NothingIsEmpty();
    if frames == [] {
      NothingServed(env, s, failures, attempts);
    } else {
      FramesAreLong(Requests, frames[0]);
      FlatFirst(frames[0], frames[1..]);
      assert frames == [frames[0]] + frames[1..];
      ServeStep(env, s, failures, attempts);
      if failures < SOCKET_FAILURES_COUNT {
        assert s != [];
        if s[0] == [] {
          ReadFailure(Requests, s);
          NoReplyToBroken(env, failures, attempts);
          FlatFirst([], s[1..]);
          assert s == [[]] + s[1..] && [] + Flat(s[1..]) == Flat(s[1..]);
          ServerRecoversIff(env, s[1..], frames, failures + 1, attempts);
        } else {
          FirstRequest(env, s, frames, failures, attempts);
          if Cut(s, |frames[0]|) {
            AfterFrame(s, frames);
            var r := Frame(frames[0]);
            ServerRecoversIff(env, AfterCut(s, |frames[0]|), frames[1..],
                              FailuresAfter(env, r, failures, attempts), AttemptsAfter(env, r, attempts));
          }
        }
      }
    }
  }

  lemma {:induction false} WellDeliveredIsAligned(env: Environment, s: Segments, frames: seq<seq<byte>>,
                                                  failures: nat, attempts: nat)
    requires NoneEmpty(s) && Flat(s) == Flat(frames) && WellDelivered(env, s, frames, failures, attempts)
    ensures Aligned(s, frames)
    decreases |frames|
  {
    hide NoneEmpty, Flat, Cut, AfterCut, FailuresAfter, AttemptsAfter, Reply, Unbroken;
    NothingIsEmpty();
    if frames == [] {
      if |s| > 0 {
        SomethingIsNotEmpty(s);
      }
    } else {
      var r := Frame(frames[0]);
      NotEmptyAtFront(s);
      AfterFrame(s, frames);
      FlatAfterCut(s, |frames[0]|);
      WellDeliveredIsAligned(env, AfterCut(s, |frames[0]|), frames[1..],
                             FailuresAfter(env, r, failures, attempts), AttemptsAfter(env, r, attempts));
    }
  }

  lemma SomethingIsNotEmpty(s: Segments)
    requires NoneEmpty(s) && |s| > 0
    ensures |Flat(s)| > 0
  {
    assert |s[0]| > 0;
  }

  lemma NotEmptyAtFront(s: Segments)
    requires NoneEmpty(s)
    ensures |s| > 0 ==> s[0] != []
  {
    assert |s| > 0 ==> |s[0]| > 0;
  }

  /** Without failing receives this comes to: no delivery runs across the end of a request, whatever becomes
      of the answers. */
  lemma WellDeliveredIffAligned(env: Environment, s: Segments, frames: seq<seq<byte>>)
    requires NoneEmpty(s) && Flat(s) == Flat(frames) && Valid(Requests, frames)
    ensures WellDelivered(env, s, frames, 0, 0) <==> Aligned(s, frames)
  {
    hide NoneEmpty, Serve, Valid, Reply, Flat, WellDelivered;
    ServerRecoversIff(env, s, frames, 0, 0);
    if Aligned(s, frames) {
      RequestsAligned(env, s, frames, 0, 0);
    }
    if WellDelivered(env, s, frames, 0, 0) {
      WellDeliveredIsAligned(env, s, frames, 0, 0);
    }
  }

  // ----- the same for the device thread -----

  /** The answers come in one by one: before each of them fewer than three attempts in a row have failed, passes that
      send nothing included; no receive fails within an answer; and a delivery ends where the answer ends. */
  ghost predicate AnswersDelivered(p: DeviceThread.Polling, s: Segments, frames: seq<seq<byte>>,
                                   failures: nat, pass: nat, attempts: nat)
    decreases |frames|, |s|, DeviceThread.RECONNECTS_TO_DEVICE_COUNT - failures
  {
    frames == [] ||
    (&& failures < DeviceThread.RECONNECTS_TO_DEVICE_COUNT
     && var a := DeviceThread.AttemptsAfter(p, pass, attempts);
        if !DeviceThread.Sends(p, pass, attempts) then AnswersDelivered(p, s, frames, failures + 1, pass + 1, a)
        else
          && s != []
          && if s[0] == [] then AnswersDelivered(p, s[1..], frames, failures + 1, pass + 1, a)
             else
               var n := |frames[0]|;
               && Cut(s, n) && Unbroken(s, n) && n > 0
               && AnswersDelivered(p, AfterCut(s, n), frames[1..], 0, pass + 1, a))
  }

  lemma {:induction false} AnswersFit(p: DeviceThread.Polling, s: Segments, failures: nat, pass: nat, attempts: nat)
    ensures |Flat(DeviceThread.Poll(p, s, failures, pass, attempts).published)| <= |Flat(s)|
    decreases |Flat(s)|, DeviceThread.RECONNECTS_TO_DEVICE_COUNT - failures
  {
    hide Needed, Flat, Read, Unread, Passes, Collect,
         DeviceThread.Poll, DeviceThread.Sends, DeviceThread.AttemptsAfter;
    NothingIsEmpty();
    var a := DeviceThread.AttemptsAfter(p, pass, attempts);
    if failures >= DeviceThread.RECONNECTS_TO_DEVICE_COUNT {
      DeviceThread.PollStopped(p, s, failures, pass, attempts);
    } else if DeviceThread.Sends(p, pass, attempts) {
      DeviceThread.PollStep(p, s, failures, pass, attempts);
      ReadConsumes(Answers, s);
      var r := Read(Answers, s);
      var f := if r.Frame? then 0 else failures + 1;
      var later := DeviceThread.Poll(p, Unread(Answers, s), f, pass + 1, a).published;
      AnswersFit(p, Unread(Answers, s), f, pass + 1, a);
      if r.Frame? {
        FlatFirst(r.bytes, later);
      } else {
        assert [] + later == later;
      }
    } else {
      DeviceThread.PollSkips(p, s, failures, pass, attempts);
      AnswersFit(p, s, failures + 1, pass + 1, a);
    }
  }

  lemma NothingPublished(p: DeviceThread.Polling, s: Segments, failures: nat, pass: nat, attempts: nat)
    requires Flat(s) == []
    ensures DeviceThread.Poll(p, s, failures, pass, attempts).published == []
  {
    hide Flat, DeviceThread.Poll;
    AnswersFit(p, s, failures, pass, attempts);
    PublishedAreLong(p, s, failures, pass, attempts);
    NotEmptyIsLong(DeviceThread.Poll(p, s, failures, pass, attempts).published);
  }

  lemma PublishedAreLong(p: DeviceThread.Polling, s: Segments, failures: nat, pass: nat, attempts: nat)
    ensures var published := DeviceThread.Poll(p, s, failures, pass, attempts).published;
      forall i :: 0 <= i < |published| ==> |published[i]| > 0
  {
    hide DeviceThread.Poll, Needed, CheckBytes;
    DeviceThread.PublishesOnlyAccepted(p, s, failures, pass, attempts);
    var published := DeviceThread.Poll(p, s, failures, pass, attempts).published;
    forall i | 0 <= i < |published|
      ensures |published[i]| > 0
    {
      assert published[i] in published;
      assert Passes(published[i]);
    }
  }

  /** One answer at the front of the stream: it is the first to be published exactly when it comes whole and alone. */
  lemma FirstAnswer(p: DeviceThread.Polling, s: Segments, frames: seq<seq<byte>>,
                    failures: nat, pass: nat, attempts: nat)
    requires frames != [] && Flat(s) == Flat(frames) && Valid(Answers, frames)
    requires failures < DeviceThread.RECONNECTS_TO_DEVICE_COUNT && DeviceThread.Sends(p, pass, attempts)
    requires |s| > 0 && |s[0]| > 0
    ensures var n := |frames[0]|;
      DeviceThread.Poll(p, s, failures, pass, attempts).published == frames <==>
        && Cut(s, n) && Unbroken(s, n)
        && DeviceThread.Poll(p, AfterCut(s, n), 0, pass + 1, DeviceThread.AttemptsAfter(p, pass, attempts)).published
           == frames[1..]
  {
    hide NoneEmpty, Read, Unread, Flat, Passes, Needed, WellFormed, Collect, Cut, AfterCut, Unbroken,
         DeviceThread.Poll, DeviceThread.Sends, DeviceThread.AttemptsAfter;
    DeviceThread.PollStep(p, s, failures, pass, attempts);
    ReadConsumes(Answers, s);
    var frame, r, rest := frames[0], Read(Answers, s), Unread(Answers, s);
    var f, a := if r.Frame? then 0 else failures + 1, DeviceThread.AttemptsAfter(p, pass, attempts);
    var later := DeviceThread.Poll(p, rest, f, pass + 1, a).published;
    FlatFirst(frame, frames[1..]);
    assert frames == [frame] + frames[1..];
    assert Flat(s)[..|frame|] == frame;
    ReadRecoversIff(Answers, frame, s);
    if r == Frame(frame) {
      assert ([frame] + later)[1..] == later;
    } else if r.Frame? {
      assert ([r.bytes] + later)[0] == r.bytes;
    } else {
      assert [] + later == later;
      AnswersFit(p, rest, f, pass + 1, a);
      SomethingIsCollected(Answers, s);
    }
  }

  /** For any concatenation of well-formed answers with good CRCs, however it arrives and whatever fails, the thread
      publishes exactly that list if and only if the answers are delivered so. */
  lemma {:induction false} DeviceRecoversIff(p: DeviceThread.Polling, s: Segments, frames: seq<seq<byte>>,
                                             failures: nat, pass: nat, attempts: nat)
    requires Flat(s) == Flat(frames) && Valid(Answers, frames)
    ensures (DeviceThread.Poll(p, s, failures, pass, attempts).published == frames)
      <==> AnswersDelivered(p, s, frames, failures, pass, attempts)
    decreases |frames|, |s|, DeviceThread.RECONNECTS_TO_DEVICE_COUNT - failures
  {
    hide NoneEmpty, Read, Unread, Flat, Passes, Needed, WellFormed, Collect, Cut, AfterCut, Unbroken,
         DeviceThread.Poll, DeviceThread.Sends, DeviceThread.AttemptsAfter;
    NothingIsEmpty();
    if frames == [] {
      NothingPublished(p, s, failures, pass, attempts);
    } else if failures >= DeviceThread.RECONNECTS_TO_DEVICE_COUNT {
      DeviceThread.PollStopped(p, s, failures, pass, attempts);
    } else {
      var a := DeviceThread.AttemptsAfter(p, pass, attempts);
      FramesAreLong(Answers, frames[0]);
      FlatFirst(frames[0], frames[1..]);
      assert frames == [frames[0]] + frames[1..];
      assert s != [];
      if !DeviceThread.Sends(p, pass, attempts) {
        DeviceThread.PollSkips(p, s, failures, pass, attempts);
        DeviceRecoversIff(p, s, frames, failures + 1, pass + 1, a);
      } else if s[0] == [] {
        DeviceThread.PollStep(p, s, failures, pass, attempts);
        ReadFailure(Answers, s);
        FlatFirst([], s[1..]);
        assert s == [[]] + s[1..] && [] + Flat(s[1..]) == Flat(s[1..]);
        var later := DeviceThread.Poll(p, s[1..], failures + 1, pass + 1, a).published;
        assert [] + later == later;
        DeviceRecoversIff(p, s[1..], frames, failures + 1, pass + 1, a);
      } else {
        FirstAnswer(p, s, frames, failures, pass, attempts);
        if Cut(s, |frames[0]|) {
          AfterFrame(s, frames);
          DeviceRecoversIff(p, AfterCut(s, |frames[0]|), frames[1..], 0, pass + 1, a);
        }
      }
    }
  }

  ghost predicate ByteByByte(s: Segments) {
    forall i :: 0 <= i < |s| ==> |s[i]| == 1
  }

  lemma {:induction false} SingleBytesAreCut(s: Segments, n: nat)
    requires ByteByByte(s) && n <= |s|
    ensures Cut(s, n) && AfterCut(s, n) == s[n..]
  {
    if n > 0 {
      assert |s[0]| == 1;
      SingleBytesAreCut(s[1..], n - 1);
      assert s[1..][n - 1..] == s[n..];
    }
  }

  lemma {:induction false} SingleBytesAreFlat(s: Segments, n: nat)
    requires ByteByByte(s) && n <= |s|
    ensures |Flat(s)| == |s| && Flat(s[n..]) == Flat(s)[n..]
  {
    if |s| > 0 {
      assert |s[0]| == 1;
      if n > 0 {
        SingleBytesAreFlat(s[1..], n - 1);
        assert s[1..][n - 1..] == s[n..];
      } else {
        SingleBytesAreFlat(s[1..], 0);
        assert s[0..] == s;
      }
    }
  }

  /** Bytes that come in one at a time never run across the end of a frame, so then every list of requests is
      recovered whole. */
  lemma {:induction false} ByteByByteIsAligned(s: Segments, frames: seq<seq<byte>>)
    requires ByteByByte(s) && Flat(s) == Flat(frames)
    ensures Aligned(s, frames)
    decreases |frames|
  {
    hide Cut, AfterCut;
    SingleBytesAreFlat(s, 0);
    if frames != [] {
      var n := |frames[0]|;
      assert Flat(frames) == frames[0] + Flat(frames[1..]);
      SingleBytesAreCut(s, n);
      SingleBytesAreFlat(s, n);
      assert Flat(s)[n..] == Flat(frames[1..]);
      ByteByByteIsAligned(s[n..], frames[1..]);
    }
  }

  // ----- frames of exactly the length they announce -----

  lemma FrontIsWellFormed(side: Side, x: seq<byte>)
    requires |x| >= Needed(side, x) && |x| >= 5 && (side == Requests ==> Supported(x[1]))
    ensures Needed(side, x) >= 5 && WellFormed(side, x[..Needed(side, x)])
  {
  }

  lemma NeededIsFive(side: Side, x: seq<byte>)
    requires |x| >= Needed(side, x) && (side == Requests ==> |x| >= 2 && Supported(x[1]))
    ensures |x| >= 5
  {
  }

  /** A frame that was read has exactly the length it announces if and only if a delivery ends there. */
  lemma ExactLengthIff(side: Side, s: Segments)
    requires Read(side, s).Frame?
    ensures var x := Read(side, s).bytes;
      |x| == Needed(side, x) <==> Cut(s, Needed(side, x))
  {
    hide Needed, NoneEmpty, Flat, Cut, AfterCut, Collect, Passes, WellFormed, Supported, Unbroken;
    ReadConsumes(side, s);
    var x := Read(side, s).bytes;
    NeededIsFive(side, x);
    FrontIsWellFormed(side, x);
    var y := x[..Needed(side, x)];
    assert y[0..] == y && Flat(s)[..|y|] == y;
    CollectFrame(side, y, [], s);
  }

  /** In every pass that reads a frame a delivery ends where the frame says that it ends. */
  ghost predicate CutsEach(p: DeviceThread.Polling, s: Segments, failures: nat, pass: nat, attempts: nat)
    decreases |Flat(s)|, DeviceThread.RECONNECTS_TO_DEVICE_COUNT - failures
  {
    failures >= DeviceThread.RECONNECTS_TO_DEVICE_COUNT ||
    (var a := DeviceThread.AttemptsAfter(p, pass, attempts);
     if !DeviceThread.Sends(p, pass, attempts) then CutsEach(p, s, failures + 1, pass + 1, a)
     else
       ReadConsumes(Answers, s);
       var r := Read(Answers, s);
       && (r.Frame? ==> Cut(s, Needed(Answers, r.bytes)))
       && CutsEach(p, Unread(Answers, s), if r.Frame? then 0 else failures + 1, pass + 1, a))
  }

  ghost predicate AllExact(published: seq<seq<byte>>) {
    forall f :: f in published ==> |f| == Needed(Answers, f)
  }

  lemma ExactFirst(frame: seq<byte>, later: seq<seq<byte>>)
    ensures AllExact([frame] + later) <==> |frame| == Needed(Answers, frame) && AllExact(later)
    ensures [] + later == later
  {
    hide Needed;
    assert frame in [frame] + later;
    assert forall f :: f in later ==> f in [frame] + later;
  }

  /** Over a whole connection, for every stream of outcomes: all published answers have exactly the length they
      announce if and only if deliveries end where the frames end. */
  lemma {:induction false} PublishesExactlyIff(p: DeviceThread.Polling, s: Segments, failures: nat, pass: nat,
                                               attempts: nat)
    ensures AllExact(DeviceThread.Poll(p, s, failures, pass, attempts).published)
      <==> CutsEach(p, s, failures, pass, attempts)
    decreases |Flat(s)|, DeviceThread.RECONNECTS_TO_DEVICE_COUNT - failures
  {
    hide Needed, Flat, Read, Unread, Passes, Cut, AllExact,
         DeviceThread.Poll, DeviceThread.Sends, DeviceThread.AttemptsAfter;
    var a := DeviceThread.AttemptsAfter(p, pass, attempts);
    if failures >= DeviceThread.RECONNECTS_TO_DEVICE_COUNT {
      DeviceThread.PollStopped(p, s, failures, pass, attempts);
      NothingIsExact();
    } else if DeviceThread.Sends(p, pass, attempts) {
      DeviceThread.PollStep(p, s, failures, pass, attempts);
      ReadConsumes(Answers, s);
      var r := Read(Answers, s);
      var f := if r.Frame? then 0 else failures + 1;
      var later := DeviceThread.Poll(p, Unread(Answers, s), f, pass + 1, a).published;
      PublishesExactlyIff(p, Unread(Answers, s), f, pass + 1, a);
      if r.Frame? {
        ExactLengthIff(Answers, s);
        ExactFirst(r.bytes, later);
      } else {
        assert [] + later == later;
      }
    } else {
      DeviceThread.PollSkips(p, s, failures, pass, attempts);
      PublishesExactlyIff(p, s, failures + 1, pass + 1, a);
    }
  }

  lemma NothingIsExact()
    ensures AllExact([])
  {
  }

  /** None of the receives for a frame gets more than it asks for. */
  ghost predicate Modest(side: Side, got: seq<byte>, s: Segments)
    decreases |Flat(s)|
  {
    |got| >= Needed(side, got) ||
    (var missing := Needed(side, got) - |got|;
     RecvKeeps(s, missing, RECV_BUFFER);
     var d := Gather(s, [], missing, RECV_BUFFER);
     |d.data| <= missing && (|d.data| == missing ==> Modest(side, got + d.data, d.rest)))
  }

  /** No receive of the whole connection gets more than it asks for. */
  ghost predicate ModestRun(p: DeviceThread.Polling, s: Segments, failures: nat, pass: nat, attempts: nat)
    decreases |Flat(s)|, DeviceThread.RECONNECTS_TO_DEVICE_COUNT - failures
  {
    failures >= DeviceThread.RECONNECTS_TO_DEVICE_COUNT ||
    (var a := DeviceThread.AttemptsAfter(p, pass, attempts);
     if !DeviceThread.Sends(p, pass, attempts) then ModestRun(p, s, failures + 1, pass + 1, a)
     else
       ReadConsumes(Answers, s);
       var r := Read(Answers, s);
       && Modest(Answers, [], s)
       && ModestRun(p, Unread(Answers, s), if r.Frame? then 0 else failures + 1, pass + 1, a))
  }

  lemma NeverTooFar(side: Side, got: seq<byte>, longer: seq<byte>)
    requires |longer| == Needed(side, got) > |got| && longer[..|got|] == got
    ensures |longer| <= Needed(side, longer)
  {
  }

  lemma {:induction false} ModestIsExact(side: Side, got: seq<byte>, s: Segments)
    requires Modest(side, got, s) && |got| <= Needed(side, got)
    ensures var c := Collect(side, got, s);
      c.complete ==> |c.frame| == Needed(side, c.frame)
    decreases |Flat(s)|
  {
    hide Needed, Flat, Gather;
    var need := Needed(side, got);
    if |got| < need {
      var missing := need - |got|;
      RecvKeeps(s, missing, RECV_BUFFER);
      var d := Gather(s, [], missing, RECV_BUFFER);
      Stage(side, got, s);
      if |d.data| == missing {
        NeverTooFar(side, got, got + d.data);
        ModestIsExact(side, got + d.data, d.rest);
      }
    }
  }

  /** If no receive gets more than it asks for, deliveries end where the frames end, so every published answer has
      exactly the length it announces. */
  lemma {:induction false} ModestRunIsExact(p: DeviceThread.Polling, s: Segments, failures: nat, pass: nat,
                                            attempts: nat)
    requires ModestRun(p, s, failures, pass, attempts)
    ensures CutsEach(p, s, failures, pass, attempts)
    ensures AllExact(DeviceThread.Poll(p, s, failures, pass, attempts).published)
    decreases |Flat(s)|, DeviceThread.RECONNECTS_TO_DEVICE_COUNT - failures
  {
    hide Needed, Flat, Collect, Passes, Cut, AllExact, Modest,
         DeviceThread.Poll, DeviceThread.Sends, DeviceThread.AttemptsAfter;
    PublishesExactlyIff(p, s, failures, pass, attempts);
    var a := DeviceThread.AttemptsAfter(p, pass, attempts);
    if failures < DeviceThread.RECONNECTS_TO_DEVICE_COUNT {
      if DeviceThread.Sends(p, pass, attempts) {
        ReadConsumes(Answers, s);
        ModestIsExact(Answers, [], s);
        var r := Read(Answers, s);
        if r.Frame? {
          ExactLengthIff(Answers, s);
        }
        ModestRunIsExact(p, Unread(Answers, s), if r.Frame? then 0 else failures + 1, pass + 1, a);
      } else {
        ModestRunIsExact(p, s, failures + 1, pass + 1, a);
      }
    }
  }
}
