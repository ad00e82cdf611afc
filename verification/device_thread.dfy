/** The thread that polls one device and publishes what it answers. */
module DeviceThread {
  import opened Bytes
  import opened Collections
  import opened Counting
  import opened StandardCrc
  import opened StreamSocket
  import opened Framing
  import opened FrameReader

  const RECONNECTS_TO_DEVICE_COUNT := 3

  /** The buffer the device automaton reads, as the list of values it has had, and the wake-up pulses. */
  class MetroDevice {
    var published: seq<seq<byte>>
    var pulses: nat

    constructor ()
      ensures published == [] && pulses == 0
    {
      published := [];
      pulses := 0;
    }

    method SetAnswer(answer: seq<byte>)
      modifies this`published
      ensures published == old(published) + [answer]
    {
      published := published + [answer];
    }

    method SendPulse()
      modifies this`pulses
      ensures pulses == old(pulses) + 1
    {
      pulses := pulses + 1;
    }
  }

  lemma NeededForAnswer(f: seq<byte>)
    ensures |f| < 3 ==> Needed(Answers, f) == 3
    ensures |f| >= 3 && f[1] | 0x80 == f[1] ==> Needed(Answers, f) == 5
    ensures |f| >= 3 && f[1] | 0x80 != f[1] && (f[1] == 4 || f[1] == 3) ==> Needed(Answers, f) == 5 + f[2] as int
    ensures |f| >= 3 && f[1] | 0x80 != f[1] && f[1] != 4 && f[1] != 3 ==> Needed(Answers, f) == 8
  {
  }

  method ReadAnswer(sock: GenericSocket) returns (r: Reading)
    modifies sock`incoming
    ensures r == Read(Answers, old(sock.incoming))
    ensures sock.incoming == Unread(Answers, old(sock.incoming))
  {
    hide NoneEmpty, Gather, Passes, Collect, Needed;
    NeededForAnswer([]);
    var ok, header := Fetch(Answers, sock, [], ANSWER_HEADER_SIZE);
    if !ok {
      return Broken;
    }
    NeededForAnswer(header);
    var toReceive: int;
    if header[1] | 0x80 == header[1] {
      toReceive := CRC_SIZE;
    } else if header[1] == 4 || header[1] == 3 {
      toReceive := header[2] as int + CRC_SIZE;
    } else {
      toReceive := CRC_SIZE + WRITE_ANSWER_FRAGMENT;
    }
    var alreadyReceived := |header| - ANSWER_HEADER_SIZE;
    var answer;
    ok, answer := Fetch(Answers, sock, header, toReceive - alreadyReceived);
    if !ok {
      return Broken;
    }
    NeededForAnswer(answer);
    AlreadyComplete(Answers, answer, sock.incoming);
    ok := CrcMatches(answer);
    r := if ok then Frame(answer) else Broken;
  }

  /** The requests the device asks for, one for each pass of the loop. */
  datatype Polling = Polling(request: nat -> seq<byte>, sendWorks: nat -> bool)

  /** Publications and, for each pass, whether it ended with a published answer. */
  datatype Polled = Polled(published: seq<seq<byte>>, passes: seq<bool>, unread: Segments)

  predicate Sends(p: Polling, pass: nat, attempts: nat) {
    p.request(pass) != [] && p.sendWorks(attempts)
  }

  function AttemptsAfter(p: Polling, pass: nat, attempts: nat): nat {
    if p.request(pass) == [] then attempts else attempts + 1
  }

  /** The rest of the inner loop of one connection. */
  ghost function Poll(p: Polling, s: Segments, failures: nat, pass: nat, attempts: nat): Polled
    decreases |Flat(s)|, RECONNECTS_TO_DEVICE_COUNT - failures
  {
    if failures >= RECONNECTS_TO_DEVICE_COUNT then Polled([], [], s)
    else if !Sends(p, pass, attempts) then
      var after := Poll(p, s, failures + 1, pass + 1, AttemptsAfter(p, pass, attempts));
      Polled(after.published, [false] + after.passes, after.unread)
    else
      ReadConsumes(Answers, s);
      var r := Read(Answers, s);
      var after := Poll(p, Unread(Answers, s), if r.Frame? then 0 else failures + 1,
                        pass + 1, AttemptsAfter(p, pass, attempts));
      Polled((if r.Frame? then [r.bytes] else []) + after.published, [r.Frame?] + after.passes, after.unread)
  }

  /** What the next n passes put on the wire: the whole request of each pass whose send works. */
  function Requested(p: Polling, pass: nat, attempts: nat, n: nat): seq<seq<byte>>
    decreases n
  {
    if n == 0 then []
    else
      Wired(p, pass, attempts) + Requested(p, pass + 1, if p.request(pass) == [] then attempts else attempts + 1, n - 1)
  }

  /** One pass: send the request, read the answer, publish it. */
  method PollOnce(dev: MetroDevice, sock: GenericSocket, p: Polling, failures: nat, pass: nat)
    returns (failures': nat, ghost r: Reading)
    requires sock.sendWorks == p.sendWorks
    modifies dev, sock
    ensures sock.attempts == AttemptsAfter(p, pass, old(sock.attempts))
    ensures sock.outgoing == old(sock.outgoing) +
      if p.request(pass) != [] && p.sendWorks(old(sock.attempts)) then [p.request(pass)] else []
    ensures !Sends(p, pass, old(sock.attempts)) ==> r == Broken && sock.incoming == old(sock.incoming)
    ensures Sends(p, pass, old(sock.attempts)) ==>
      r == Read(Answers, old(sock.incoming)) && sock.incoming == Unread(Answers, old(sock.incoming))
    ensures failures' == if r.Frame? then 0 else failures + 1
    ensures dev.published == old(dev.published) + if r.Frame? then [r.bytes] else []
    ensures dev.pulses == old(dev.pulses) + if r.Frame? then 1 else 0
  {
    hide NoneEmpty, Read, Unread, Needed, Passes, Collect, Flat;
    r := Broken;
    failures' := failures + 1;
    var request := p.request(pass);
    var sent := sock.Send(request);
    if sent {
      var reading := ReadAnswer(sock);
      if reading.Frame? {
        failures' := 0;
        dev.SetAnswer(reading.bytes);
        dev.SendPulse();
      }
      r := reading;
    }
  }

  lemma PollStep(p: Polling, s: Segments, failures: nat, pass: nat, attempts: nat)
    requires failures < RECONNECTS_TO_DEVICE_COUNT && Sends(p, pass, attempts)
    ensures var r := Read(Answers, s);
      var after := Poll(p, Unread(Answers, s), if r.Frame? then 0 else failures + 1,
                        pass + 1, AttemptsAfter(p, pass, attempts));
      Poll(p, s, failures, pass, attempts) ==
        Polled((if r.Frame? then [r.bytes] else []) + after.published, [r.Frame?] + after.passes, after.unread)
  {
    hide NoneEmpty, Read, Unread, Flat, Sends;
    ReadConsumes(Answers, s);
  }

  lemma PollStopped(p: Polling, s: Segments, failures: nat, pass: nat, attempts: nat)
    requires failures >= RECONNECTS_TO_DEVICE_COUNT
    ensures Poll(p, s, failures, pass, attempts) == Polled([], [], s)
  {
  }

  lemma PollSkips(p: Polling, s: Segments, failures: nat, pass: nat, attempts: nat)
    requires failures < RECONNECTS_TO_DEVICE_COUNT && !Sends(p, pass, attempts)
    ensures var after := Poll(p, s, failures + 1, pass + 1, AttemptsAfter(p, pass, attempts));
      Poll(p, s, failures, pass, attempts) == Polled(after.published, [false] + after.passes, after.unread)
  {
  }

  /** What the request of a pass adds to the wire. */
  function Wired(p: Polling, pass: nat, attempts: nat): seq<seq<byte>> {
    if p.request(pass) != [] && p.sendWorks(attempts) then [p.request(pass)] else []
  }

  /** One pass of the inner loop, as the methods see it. */
  lemma PollPass(p: Polling, s: Segments, failures: nat, pass: nat, attempts: nat, r: Reading)
    requires failures < RECONNECTS_TO_DEVICE_COUNT
    requires r == if Sends(p, pass, attempts) then Read(Answers, s) else Broken
    ensures var rest := if Sends(p, pass, attempts) then Unread(Answers, s) else s;
      var all := Poll(p, s, failures, pass, attempts);
      var a := AttemptsAfter(p, pass, attempts);
      var after := Poll(p, rest, if r.Frame? then 0 else failures + 1, pass + 1, a);
      && all.published == (if r.Frame? then [r.bytes] else []) + after.published
      && all.unread == after.unread
      && Requested(p, pass, attempts, |all.passes|)
           == Wired(p, pass, attempts) + Requested(p, pass + 1, a, |after.passes|)
      && |Flat(rest)| <= |Flat(s)| && (r.Frame? ==> |Flat(rest)| < |Flat(s)|)
  {
    hide Read, Unread, Flat, Sends, Poll, Needed, Passes, Collect;
    ReadConsumes(Answers, s);
    if Sends(p, pass, attempts) {
      PollStep(p, s, failures, pass, attempts);
    } else {
      PollSkips(p, s, failures, pass, attempts);
      var after := Poll(p, s, failures + 1, pass + 1, AttemptsAfter(p, pass, attempts));
      assert [] + after.published == after.published;
    }
  }

  /** The inner loop of a connection. */
  method PollAll(dev: MetroDevice, sock: GenericSocket, p: Polling)
    requires sock.sendWorks == p.sendWorks
    modifies dev, sock
    ensures var all := Poll(p, old(sock.incoming), 0, 0, old(sock.attempts));
      && dev.published == old(dev.published) + all.published
      && dev.pulses == old(dev.pulses) + |all.published|
      && sock.incoming == all.unread
      && sock.outgoing == old(sock.outgoing) + Requested(p, 0, old(sock.attempts), |all.passes|)
  {
    hide Read, Unread, Flat, Needed, Passes, Collect, Sends, AttemptsAfter, Poll, Requested;
    var failures, pass: nat := 0, 0;
    ghost var all := Poll(p, sock.incoming, 0, 0, sock.attempts);
    ghost var wire := Requested(p, 0, sock.attempts, |all.passes|);
    ghost var published: seq<seq<byte>> := [];
    ghost var requested: seq<seq<byte>> := [];
    while failures < RECONNECTS_TO_DEVICE_COUNT
      invariant dev.published == old(dev.published) + published
      invariant dev.pulses == old(dev.pulses) + |published|
      invariant sock.outgoing == old(sock.outgoing) + requested
      invariant var next := Poll(p, sock.incoming, failures, pass, sock.attempts);
        && all.published == published + next.published && all.unread == next.unread
        && wire == requested + Requested(p, pass, sock.attempts, |next.passes|)
      decreases |Flat(sock.incoming)|, RECONNECTS_TO_DEVICE_COUNT - failures
    {
      ghost var s, f, a := sock.incoming, failures, sock.attempts;
      ghost var r;
      failures, r := PollOnce(dev, sock, p, failures, pass);
      PollPass(p, s, f, pass, a, r);
      pass := pass + 1;
      ghost var after := Poll(p, sock.incoming, failures, pass, sock.attempts);
      ghost var news, more := if r.Frame? then [r.bytes] else [], Wired(p, pass - 1, a);
      Associate(published, news, after.published);
      Associate(requested, more, Requested(p, pass, sock.attempts, |after.passes|));
      published, requested := published + news, requested + more;
    }
    PollStopped(p, sock.incoming, failures, pass, sock.attempts);
    RequestedNothing(p, pass, sock.attempts);
    assert published + [] == published && requested + [] == requested;
  }

  lemma RequestedNothing(p: Polling, pass: nat, attempts: nat)
    ensures Requested(p, pass, attempts, 0) == []
  {
  }

  /** One connection: poll until too many failures in a row, then signal the loss with an empty buffer. */
  method Connection(dev: MetroDevice, sock: GenericSocket, p: Polling, initialized: bool)
    requires sock.sendWorks == p.sendWorks
    modifies dev, sock
    ensures initialized ==>
      var all := Poll(p, old(sock.incoming), 0, 0, old(sock.attempts));
      dev.published == old(dev.published) + all.published + [[]] && sock.incoming == all.unread
      && dev.pulses == old(dev.pulses) + |all.published| + 1
      && sock.outgoing == old(sock.outgoing) + Requested(p, 0, old(sock.attempts), |all.passes|)
    ensures !initialized ==>
      dev.published == old(dev.published) + [[], []] && sock.incoming == old(sock.incoming)
      && dev.pulses == old(dev.pulses) + 1 && sock.outgoing == old(sock.outgoing)
  {
    hide Poll, Requested;
    if initialized {
      PollAll(dev, sock, p);
    } else {
      dev.SetAnswer([]);
    }
    dev.SetAnswer([]);
    dev.SendPulse();
  }

  // ----- what the thread does over a whole connection -----

  /** Every published answer passes the CRC check, has at least the length it announces, and is a piece
      of the stream of its own. */
  lemma {:induction false} PublishesOnlyAccepted(p: Polling, s: Segments, failures: nat, pass: nat, attempts: nat)
    ensures var published := Poll(p, s, failures, pass, attempts).published;
      && Pieces(published, Flat(s))
      && forall f :: f in published ==> Passes(f) && |f| >= Needed(Answers, f)
    decreases |Flat(s)|, RECONNECTS_TO_DEVICE_COUNT - failures
  {
    hide NoneEmpty, Read, Unread, Needed, Passes, Flat, Pieces, Collect;
    if failures >= RECONNECTS_TO_DEVICE_COUNT {
      NoPieces(Flat(s));
    } else if !Sends(p, pass, attempts) {
      PublishesOnlyAccepted(p, s, failures + 1, pass + 1, AttemptsAfter(p, pass, attempts));
    } else {
      ReadConsumes(Answers, s);
      var r, rest := Read(Answers, s), Unread(Answers, s);
      var f := if r.Frame? then 0 else failures + 1;
      var later := Poll(p, rest, f, pass + 1, AttemptsAfter(p, pass, attempts)).published;
      PublishesOnlyAccepted(p, rest, f, pass + 1, AttemptsAfter(p, pass, attempts));
      if r.Frame? {
        PiecesFirst(r.bytes, later, Flat(rest));
      } else {
        PiecesLater(later, Collect(Answers, [], s).frame, Flat(rest));
        assert [] + later == later;
      }
    }
  }

  /** The loop ends at the first three failures in a row, and not before. */
  lemma {:induction false} EndsAtThirdFailure(p: Polling, s: Segments, failures: nat, pass: nat, attempts: nat)
    requires failures <= RECONNECTS_TO_DEVICE_COUNT
    ensures var passes := Poll(p, s, failures, pass, attempts).passes;
      && Streak(failures, passes) == 3
      && forall k :: 0 <= k < |passes| ==> Streak(failures, passes[..k]) < 3
    decreases |Flat(s)|, RECONNECTS_TO_DEVICE_COUNT - failures
  {
    hide NoneEmpty, Read, Unread, Flat, Sends;
    if failures < RECONNECTS_TO_DEVICE_COUNT {
      ReadConsumes(Answers, s);
      var passes := Poll(p, s, failures, pass, attempts).passes;
      var first, later := passes[0], passes[1..];
      var f := if first then 0 else failures + 1;
      if !Sends(p, pass, attempts) {
        EndsAtThirdFailure(p, s, f, pass + 1, AttemptsAfter(p, pass, attempts));
      } else {
        EndsAtThirdFailure(p, Unread(Answers, s), f, pass + 1, AttemptsAfter(p, pass, attempts));
      }
      assert passes == [first] + later;
      StreakAfterFirst(failures, first, later);
      forall k | 0 <= k < |passes|
        ensures Streak(failures, passes[..k]) < RECONNECTS_TO_DEVICE_COUNT
      {
        if k > 0 {
          assert passes[..k] == [first] + later[..k - 1];
          StreakAfterFirst(failures, first, later[..k - 1]);
        }
      }
    }
  }

  ghost predicate AlwaysSends(p: Polling) {
    forall pass: nat, attempts: nat :: Sends(p, pass, attempts)
  }

  /** Answers whose deliveries keep to the frame boundaries are published one by one, unchanged. */
  lemma {:induction false} PublishesAligned(p: Polling, s: Segments, frames: seq<seq<byte>>,
                                            failures: nat, pass: nat, attempts: nat)
    requires NoneEmpty(s) && Aligned(s, frames) && Valid(Answers, frames)
    requires failures < RECONNECTS_TO_DEVICE_COUNT
    requires AlwaysSends(p)
    ensures var all := Poll(p, s, failures, pass, attempts);
      all.published == frames && all.unread == []
    decreases |frames|, RECONNECTS_TO_DEVICE_COUNT - failures
  {
    hide NoneEmpty, Read, Unread, Valid, Sends, Poll, Flat, Cut, AfterCut, AttemptsAfter;
    PollStep(p, s, failures, pass, attempts);
    var a := AttemptsAfter(p, pass, attempts);
    if frames == [] {
      ReadNothing(Answers);
      if failures + 1 < RECONNECTS_TO_DEVICE_COUNT {
        PublishesAligned(p, s, frames, failures + 1, pass + 1, a);
      } else {
        PollStopped(p, s, failures + 1, pass + 1, a);
      }
    } else {
      AlignedFirst(Answers, s, frames);
      PublishesAligned(p, Unread(Answers, s), frames[1..], 0, pass + 1, a);
      assert [frames[0]] + frames[1..] == frames;
    }
  }

  /** Whatever becomes of the sends, such answers are published unchanged and in order, from the first one on. */
  lemma {:induction false} PublishesABeginning(p: Polling, s: Segments, frames: seq<seq<byte>>,
                                               failures: nat, pass: nat, attempts: nat)
    requires NoneEmpty(s) && Aligned(s, frames) && Valid(Answers, frames)
    ensures Poll(p, s, failures, pass, attempts).published <= frames
    decreases |frames|, RECONNECTS_TO_DEVICE_COUNT - failures
  {
    hide NoneEmpty, Read, Unread, Valid, Sends, Poll, Flat, Cut, AfterCut, AttemptsAfter;
    var a := AttemptsAfter(p, pass, attempts);
    if failures >= RECONNECTS_TO_DEVICE_COUNT {
      PollStopped(p, s, failures, pass, attempts);
    } else if !Sends(p, pass, attempts) {
      PollSkips(p, s, failures, pass, attempts);
      PublishesABeginning(p, s, frames, failures + 1, pass + 1, a);
    } else {
      PollStep(p, s, failures, pass, attempts);
      if frames == [] {
        ReadNothing(Answers);
        PublishesABeginning(p, s, frames, failures + 1, pass + 1, a);
      } else {
        AlignedFirst(Answers, s, frames);
        PublishesABeginning(p, Unread(Answers, s), frames[1..], 0, pass + 1, a);
        assert [frames[0]] + frames[1..] == frames;
      }
    }
  }

  function Successes(passes: seq<bool>): nat {
    if |passes| == 0 then 0 else (if passes[0] then 1 else 0) + Successes(passes[1..])
  }

  function AttemptsAt(p: Polling, pass: nat, attempts: nat, k: nat): nat
    decreases k
  {
    if k == 0 then attempts else AttemptsAt(p, pass + 1, AttemptsAfter(p, pass, attempts), k - 1)
  }

  /** Every answer is published by a pass of its own, and that pass had sent its own request before. */
  lemma {:induction false} AnswersFollowRequests(p: Polling, s: Segments, failures: nat, pass: nat, attempts: nat)
    ensures var all := Poll(p, s, failures, pass, attempts);
      && |all.published| == Successes(all.passes)
      && forall k :: 0 <= k < |all.passes| && all.passes[k] ==>
           p.request(pass + k) != [] && p.sendWorks(AttemptsAt(p, pass, attempts, k))
    decreases |Flat(s)|, RECONNECTS_TO_DEVICE_COUNT - failures
  {
    hide Read, Unread, Flat, Needed, Passes, Poll, AttemptsAfter;
    var a := AttemptsAfter(p, pass, attempts);
    var all := Poll(p, s, failures, pass, attempts);
    if failures >= RECONNECTS_TO_DEVICE_COUNT {
      PollStopped(p, s, failures, pass, attempts);
    } else {
      var rest, f := s, failures + 1;
      if Sends(p, pass, attempts) {
        PollStep(p, s, failures, pass, attempts);
        ReadConsumes(Answers, s);
        rest, f := Unread(Answers, s), if Read(Answers, s).Frame? then 0 else failures + 1;
      } else {
        PollSkips(p, s, failures, pass, attempts);
      }
      AnswersFollowRequests(p, rest, f, pass + 1, a);
      var later := Poll(p, rest, f, pass + 1, a);
      assert all.passes == [all.passes[0]] + later.passes && all.passes[1..] == later.passes;
      forall k | 0 <= k < |all.passes| && all.passes[k]
        ensures p.request(pass + k) != [] && p.sendWorks(AttemptsAt(p, pass, attempts, k))
      {
        if k > 0 {
          assert later.passes[k - 1];
          assert pass + 1 + (k - 1) == pass + k;
        }
      }
    }
  }
}
