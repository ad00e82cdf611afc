/** The frames of the MODBUS Application Protocol, by their literal lengths and functions, and what becomes of them. */
module StandardFrames {
  import opened Bytes
  import opened StandardCrc
  import opened StreamSocket
  import opened Framing
  import opened EmulatorServer
  import Corruption
  import StreamTheory
  import ComPortModel

  /** Read input registers, write a coil, write a register: 8 bytes. Write registers: 9 and as many as it announces. */
  predicate StandardRequest(f: seq<byte>) {
    || (|f| == 8 && f[1] in {4, 5, 6})
    || (|f| >= 9 && f[1] == 16 && |f| == 9 + ToInt(f[6]))
  }

  /** Answers to reads: 5 bytes and as many as they announce. Answers to writes: 8 bytes. Error answers: 5 bytes. */
  predicate StandardAnswer(f: seq<byte>) {
    || (|f| >= 5 && f[1] in {3, 4} && |f| == 5 + ToInt(f[2]))
    || (|f| == 8 && f[1] in {5, 6, 16})
    || (|f| == 5 && ToInt(f[1]) >= 128)
  }

  /** The requests the readers take for well-formed are exactly those of the standard. */
  lemma WellFormedRequestsAreStandard(f: seq<byte>)
    ensures WellFormed(Requests, f) <==> StandardRequest(f)
  {
  }

  lemma StandardAnswersAreWellFormed(f: seq<byte>)
    requires StandardAnswer(f)
    ensures WellFormed(Answers, f)
  {
    if ToInt(f[1]) >= 128 {
      HighBit(f[1]);
    } else {
      LowFunctions(f[1]);
    }
  }

  lemma HighBit(b: byte)
    requires ToInt(b) >= 128
    ensures b | 0x80 == b
  {
  }

  lemma LowFunctions(b: byte)
    requires b in {3, 4, 5, 6, 16}
    ensures b | 0x80 != b
  {
  }

  lemma FirstDelivery(side: Side, f: seq<byte>, s: Segments)
    requires WellFormed(side, f)
    ensures Flat([f] + s) == f + Flat(s) && Cut([f] + s, |f|) && AfterCut([f] + s, |f|) == s && Unbroken([f] + s, |f|)
    ensures |f| >= 5
  {
    assert ([f] + s)[1..] == s;
  }

  /** A standard request in a delivery of its own is read as itself if its CRC checks, and thrown away otherwise. */
  lemma StandardRequestIsRead(f: seq<byte>, s: Segments)
    requires StandardRequest(f)
    ensures Read(Requests, [f] + s) == if Passes(f) then Frame(f) else Broken
    ensures Unread(Requests, [f] + s) == s
  {
    hide StandardRequest, WellFormed, Flat, Cut, AfterCut, Unbroken, Passes, Needed, Collect;
    WellFormedRequestsAreStandard(f);
    FirstDelivery(Requests, f, s);
    assert f[0..] == f && (f + Flat(s))[..|f|] == f;
    CollectFrame(Requests, f, [], [f] + s);
    Corruption.KnownFunction(Requests, f);
    assert Collect(Requests, [], [f] + s).frame == f;
  }

  lemma StandardAnswerIsRead(f: seq<byte>, s: Segments)
    requires StandardAnswer(f)
    ensures Read(Answers, [f] + s) == if Passes(f) then Frame(f) else Broken
    ensures Unread(Answers, [f] + s) == s
  {
    hide StandardAnswer, WellFormed, Flat, Cut, AfterCut, Unbroken, Passes, Needed, Collect;
    StandardAnswersAreWellFormed(f);
    FirstDelivery(Answers, f, s);
    assert f[0..] == f && (f + Flat(s))[..|f|] == f;
    CollectFrame(Answers, f, [], [f] + s);
    assert Collect(Answers, [], [f] + s).frame == f;
  }

  /** A request of any other function is refused after its first two bytes, with all that came in the same delivery. */
  lemma OtherRequestIsRefused(u: seq<byte>, s: Segments)
    requires 2 <= |u| <= 300 && u[1] !in {4, 5, 6, 16}
    ensures Read(Requests, [u] + s) == Unsupported(u[0], u[1]) && Unread(Requests, [u] + s) == s
  {
    assert ([u] + s)[1..] == s && RawRecv([u] + s, RECV_BUFFER) == Delivery(u, s);
    assert [] + u == u;
    assert Gather(s, u, 2, RECV_BUFFER) == Delivery(u, s);
    assert Gather([u] + s, [], 2, RECV_BUFFER) == Delivery(u, s);
    assert Needed(Requests, []) == 2 && Needed(Requests, u) == 2;
    assert Collect(Requests, u, s) == Collected(true, u, s);
  }

  /** The worker of the serial port emulator accepts the standard requests whose CRC checks, and no other function. */
  lemma PortEmulatorAccepts(f: seq<byte>)
    ensures StandardRequest(f) ==> (ComPortModel.Acceptable(f) <==> Passes(f))
    ensures ComPortModel.Acceptable(f) ==> f[1] in {4, 5, 6, 16} && |f| >= 8
  {
    hide Passes;
  }

  // ----- what the server does with one delivery -----

  function Answer(env: Environment, f: seq<byte>): seq<byte>
    requires |f| >= 2
  {
    if env.file(f[0], f[1]) == [] then env.errorAnswer(f[0], f[1], 4) else WithCrc(env.file(f[0], f[1]))
  }

  predicate Goes(env: Environment, answer: seq<byte>, attempts: nat) {
    answer != [] && env.sendWorks(attempts)
  }

  function SendsAfter(answer: seq<byte>, attempts: nat): nat {
    if answer == [] then attempts else attempts + 1
  }

  /** A good request: the response file with its CRC is sent, or an error answer with code 4 if there is none; the count
      of failures starts again at 0, or at 1 if the answer could not be sent. */
  lemma RequestIsAnswered(env: Environment, f: seq<byte>, s: Segments, failures: nat, attempts: nat)
    requires failures < 3 && StandardRequest(f) && Passes(f)
    ensures var answer := Answer(env, f);
      var sent := Goes(env, answer, attempts);
      var after := Serve(env, s, if sent then 0 else 1, SendsAfter(answer, attempts));
      Serve(env, [f] + s, failures, attempts) ==
        Served([f] + after.requests, (if sent then [answer] else []) + after.answers, after.unread)
  {
    hide Serve, Read, Unread, Passes, WithCrc;
    StandardRequestIsRead(f, s);
    ReadConsumes(Requests, [f] + s);
    ServePass(env, [f] + s, failures, attempts);
  }

  /** An unknown function: an error answer with code 1, and one failure, or two if it could not be sent. */
  lemma UnknownFunctionIsRefused(env: Environment, u: seq<byte>, s: Segments, failures: nat, attempts: nat)
    requires failures < 3 && 2 <= |u| <= 300 && u[1] !in {4, 5, 6, 16}
    ensures var answer := env.errorAnswer(u[0], u[1], 1);
      var sent := Goes(env, answer, attempts);
      var after := Serve(env, s, if sent then failures + 1 else failures + 2, SendsAfter(answer, attempts));
      Serve(env, [u] + s, failures, attempts) ==
        Served(after.requests, (if sent then [answer] else []) + after.answers, after.unread)
  {
    hide Serve, Read, Unread, Passes;
    OtherRequestIsRefused(u, s);
    ReadConsumes(Requests, [u] + s);
    ServePass(env, [u] + s, failures, attempts);
    NothingBefore(Serve(env, s, FailuresAfter(env, Unsupported(u[0], u[1]), failures, attempts),
                        AttemptsAfter(env, Unsupported(u[0], u[1]), attempts)).requests);
  }

  lemma NothingBefore<T>(s: seq<T>)
    ensures [] + s == s
  {
  }

  /** A request whose CRC does not check: one failure and no answer. */
  lemma BadRequestIsIgnored(env: Environment, f: seq<byte>, s: Segments, failures: nat, attempts: nat)
    requires failures < 3 && StandardRequest(f) && !Passes(f)
    ensures Serve(env, [f] + s, failures, attempts) == Serve(env, s, failures + 1, attempts)
  {
    hide Serve, Read, Unread, Passes;
    StandardRequestIsRead(f, s);
    ReadConsumes(Requests, [f] + s);
    ServePass(env, [f] + s, failures, attempts);
    NoReplyToBroken(env, failures, attempts);
    var after := Serve(env, s, failures + 1, attempts);
    NothingBefore(after.requests);
    NothingBefore(after.answers);
  }

  /** A failing receive between requests: one failure. */
  lemma FailedReceiveCounts(env: Environment, s: Segments, failures: nat, attempts: nat)
    requires failures < 3
    ensures Serve(env, [[]] + s, failures, attempts) == Serve(env, s, failures + 1, attempts)
  {
    hide Serve, Read, Unread, Passes;
    assert ([[]] + s)[1..] == s;
    StreamTheory.ReadFailure(Requests, [[]] + s);
    ReadConsumes(Requests, [[]] + s);
    ServePass(env, [[]] + s, failures, attempts);
    NoReplyToBroken(env, failures, attempts);
    var after := Serve(env, s, failures + 1, attempts);
    NothingBefore(after.requests);
    NothingBefore(after.answers);
  }

  /** At three failures the thread stops, whatever still comes. */
  lemma ThreeFailuresStop(env: Environment, s: Segments, failures: nat, attempts: nat)
    requires failures >= 3
    ensures Serve(env, s, failures, attempts) == Served([], [], s)
  {
    hide Serve;
    ServePass(env, s, failures, attempts);
  }
}
