/** The connection thread of the server emulator. */
module EmulatorServer {
  import opened Bytes
  import opened StandardCrc
  import opened StreamSocket
  import opened Framing
  import opened FrameReader

  const SOCKET_FAILURES_COUNT := 3
  const EXCEPTION_ILLEGAL_FUNCTION: byte := 1
  const EXCEPTION_DEVICE_FAILURE: byte := 4

  /** What the thread finds outside: the parsed response files and the generator of error answers. */
  datatype Environment = Environment(
    file: (byte, byte) -> seq<byte>,
    errorAnswer: (byte, byte, byte) -> seq<byte>,
    sendWorks: nat -> bool)

  lemma NeededForRequest(f: seq<byte>)
    ensures |f| < 2 ==> Needed(Requests, f) == 2
    ensures |f| >= 2 && !Supported(f[1]) ==> Needed(Requests, f) == 2
    ensures |f| >= 2 && f[1] == 16 ==> Supported(f[1])
    ensures |f| >= 2 && f[1] == 16 ==> Needed(Requests, f) == if |f| < 7 then 7 else 9 + f[6] as int
    ensures |f| >= 2 && Supported(f[1]) && f[1] != 16 ==> Needed(Requests, f) == 8
  {
  }

  method ReadRequest(sock: GenericSocket) returns (r: Reading)
    modifies sock`incoming
    ensures r == Read(Requests, old(sock.incoming))
    ensures sock.incoming == Unread(Requests, old(sock.incoming))
  {
    hide NoneEmpty, Gather, Passes, Collect, Supported, Needed;
    NeededForRequest([]);
    var ok, request := Fetch(Requests, sock, [], REQUEST_HEADER_SIZE);
    if !ok {
      return Broken;
    }
    NeededForRequest(request);
    var functionCode := request[1];
    if !Supported(functionCode) {
      AlreadyComplete(Requests, request, sock.incoming);
      return Unsupported(request[0], functionCode);
    }
    var partial := PartialSize(functionCode);
    var beyondHeader := |request| - REQUEST_HEADER_SIZE;
    if functionCode == 16 {
      var headerAndFunction := REQUEST_HEADER_SIZE + partial;
      if partial - beyondHeader > 0 {
        ok, request := Fetch(Requests, sock, request, partial - beyondHeader);
        if !ok {
          return Broken;
        }
      }
      NeededForRequest(request);
      var dataBytes := request[headerAndFunction - 1] as int;
      var beyondFunction := |request| - headerAndFunction;
      ok, request := Fetch(Requests, sock, request, dataBytes + CRC_SIZE - beyondFunction);
    } else {
      ok, request := Fetch(Requests, sock, request, partial + CRC_SIZE - beyondHeader);
    }
    if !ok {
      return Broken;
    }
    NeededForRequest(request);
    AlreadyComplete(Requests, request, sock.incoming);
    ok := CrcMatches(request);
    r := if ok then Frame(request) else Broken;
  }

  /** What is sent for a reading: the file with its CRC, or an error answer. */
  function Reply(env: Environment, r: Reading): seq<byte>
    requires r.Frame? ==> |r.bytes| >= 2
  {
    match r
    case Broken => []
    case Unsupported(device, code) => env.errorAnswer(device, code, EXCEPTION_ILLEGAL_FUNCTION)
    case Frame(request) =>
      var content := env.file(request[0], request[1]);
      if content == [] then env.errorAnswer(request[0], request[1], EXCEPTION_DEVICE_FAILURE)
      else WithCrc(content)
  }

  predicate Delivered(env: Environment, r: Reading, attempts: nat)
    requires r.Frame? ==> |r.bytes| >= 2
  {
    Reply(env, r) != [] && env.sendWorks(attempts)
  }

  function FailuresAfter(env: Environment, r: Reading, failures: nat, attempts: nat): nat
    requires r.Frame? ==> |r.bytes| >= 2
  {
    match r
    case Broken => failures + 1
    case Unsupported(_, _) => failures + if Delivered(env, r, attempts) then 1 else 2
    case Frame(_) => if Delivered(env, r, attempts) then 0 else 1
  }

  function AttemptsAfter(env: Environment, r: Reading, attempts: nat): nat
    requires r.Frame? ==> |r.bytes| >= 2
  {
    attempts + if Reply(env, r) == [] then 0 else 1
  }

  datatype Served = Served(requests: seq<seq<byte>>, answers: seq<seq<byte>>, unread: Segments)

  /** The rest of the life of a connection thread, from given counts of failures and of sends. */
  ghost function Serve(env: Environment, s: Segments, failures: nat, attempts: nat): Served
    decreases |Flat(s)|, SOCKET_FAILURES_COUNT - failures
  {
    if failures >= SOCKET_FAILURES_COUNT then Served([], [], s)
    else
      ReadConsumes(Requests, s);
      var r := Read(Requests, s);
      var after := Serve(env, Unread(Requests, s),
                         FailuresAfter(env, r, failures, attempts), AttemptsAfter(env, r, attempts));
      Served((if r.Frame? then [r.bytes] else []) + after.requests,
             (if Delivered(env, r, attempts) then [Reply(env, r)] else []) + after.answers,
             after.unread)
  }

  /** One pass of the loop: read, answer, and count the failures. */
  method ServeOne(sock: GenericSocket, env: Environment, failures: nat) returns (reading: Reading, failures': nat)
    requires sock.sendWorks == env.sendWorks
    modifies sock
    ensures reading == Read(Requests, old(sock.incoming))
    ensures reading.Frame? ==> |reading.bytes| >= 2
    ensures sock.incoming == Unread(Requests, old(sock.incoming))
    ensures sock.attempts == AttemptsAfter(env, reading, old(sock.attempts))
    ensures failures' == FailuresAfter(env, reading, failures, old(sock.attempts))
    ensures sock.outgoing == old(sock.outgoing)
                           + if Delivered(env, reading, old(sock.attempts)) then [Reply(env, reading)] else []
  {
    hide NoneEmpty, Read, Unread, Needed, Passes, Supported, Collect, Flat, CheckBytes;
    ReadConsumes(Requests, sock.incoming);
    reading := ReadRequest(sock);
    failures' := failures;
    match reading
    case Broken =>
      failures' := failures + 1;
    case Unsupported(device, code) =>
      failures' := failures + 1;
      var answer := env.errorAnswer(device, code, EXCEPTION_ILLEGAL_FUNCTION);
      var sent := sock.Send(answer);
      if !sent {
        failures' := failures' + 1;
      }
    case Frame(request) =>
      var answer := env.file(request[0], request[1]);
      if answer == [] {
        answer := env.errorAnswer(request[0], request[1], EXCEPTION_DEVICE_FAILURE);
      } else {
        answer := AppendCrc(answer);
      }
      failures' := 0;
      var sent := sock.Send(answer);
      if !sent {
        failures' := failures' + 1;
      }
  }

  method SocketThread(sock: GenericSocket, env: Environment) returns (ghost accepted: seq<seq<byte>>)
    requires sock.sendWorks == env.sendWorks
    modifies sock
    ensures var all := Serve(env, old(sock.incoming), 0, old(sock.attempts));
      && accepted == all.requests
      && sock.outgoing == old(sock.outgoing) + all.answers
      && sock.incoming == all.unread
  {
    hide NoneEmpty, Read, Unread, Flat, Needed, Passes, Supported, Collect;
    hide Reply, Delivered, FailuresAfter, AttemptsAfter;
    accepted := [];
    var failures: nat := 0;
    ghost var all := Serve(env, sock.incoming, 0, sock.attempts);
    ghost var answered: seq<seq<byte>> := [];
    while failures < SOCKET_FAILURES_COUNT
      invariant sock.outgoing == old(sock.outgoing) + answered
      invariant var next := Serve(env, sock.incoming, failures, sock.attempts);
        all == Served(accepted + next.requests, answered + next.answers, next.unread)
      decreases |Flat(sock.incoming)|, SOCKET_FAILURES_COUNT - failures
    {
      ReadConsumes(Requests, sock.incoming);
      NoReplyToBroken(env, failures, sock.attempts);
      ghost var attempts := sock.attempts;
      ghost var next := Serve(env, sock.incoming, failures, attempts);
      var reading, failures' := ServeOne(sock, env, failures);
      failures := failures';
      ghost var after := Serve(env, sock.incoming, failures, sock.attempts);
      ghost var request := if reading.Frame? then [reading.bytes] else [];
      ghost var reply := if Delivered(env, reading, attempts) then [Reply(env, reading)] else [];
      assert next == Served(request + after.requests, reply + after.answers, after.unread);
      assert accepted + (request + after.requests) == (accepted + request) + after.requests;
      assert answered + (reply + after.answers) == (answered + reply) + after.answers;
      accepted := accepted + request;
      answered := answered + reply;
    }
  }

  lemma NoReplyToBroken(env: Environment, failures: nat, attempts: nat)
    ensures Reply(env, Broken) == [] && !Delivered(env, Broken, attempts)
    ensures FailuresAfter(env, Broken, failures, attempts) == failures + 1
    ensures AttemptsAfter(env, Broken, attempts) == attempts
  {
  }

  // ----- what the thread does over a whole connection -----

  /** One pass and what comes of the rest. */
  lemma ServePass(env: Environment, s: Segments, failures: nat, attempts: nat)
    ensures failures >= SOCKET_FAILURES_COUNT ==> Serve(env, s, failures, attempts) == Served([], [], s)
    ensures failures < SOCKET_FAILURES_COUNT ==>
      (ReadConsumes(Requests, s);
       var r := Read(Requests, s);
       var after := Serve(env, Unread(Requests, s),
                          FailuresAfter(env, r, failures, attempts), AttemptsAfter(env, r, attempts));
       Serve(env, s, failures, attempts) ==
         Served((if r.Frame? then [r.bytes] else []) + after.requests,
                (if Delivered(env, r, attempts) then [Reply(env, r)] else []) + after.answers,
                after.unread))
  {
    hide Read, Unread, Flat, Passes, Supported, Needed, FailuresAfter, AttemptsAfter, Delivered, Reply;
    ReadConsumes(Requests, s);
  }

  lemma ServeStep(env: Environment, s: Segments, failures: nat, attempts: nat)
    ensures failures >= SOCKET_FAILURES_COUNT ==> Serve(env, s, failures, attempts).requests == []
    ensures failures < SOCKET_FAILURES_COUNT ==>
      (ReadConsumes(Requests, s);
       var r := Read(Requests, s);
       var after := Serve(env, Unread(Requests, s),
                          FailuresAfter(env, r, failures, attempts), AttemptsAfter(env, r, attempts)).requests;
       Serve(env, s, failures, attempts).requests == if r.Frame? then [r.bytes] + after else after)
  {
    hide Serve, Read, Unread, Flat, Passes, Supported, Needed, FailuresAfter, AttemptsAfter, Delivered, Reply;
    ReadConsumes(Requests, s);
    ServePass(env, s, failures, attempts);
  }

  lemma FailuresGrow(env: Environment, s: Segments, failures: nat, attempts: nat)
    ensures (ReadConsumes(Requests, s);
             var r := Read(Requests, s);
             var f := FailuresAfter(env, r, failures, attempts);
             if r.Frame? then f <= 1 else f > failures && (r.Broken? ==> f == failures + 1))
  {
    hide Read, Unread, Flat, Passes, Supported, Needed, Reply, Delivered;
    ReadConsumes(Requests, s);
  }

  predicate Accepted(request: seq<byte>) {
    Passes(request) && |request| >= Needed(Requests, request) && Supported(request[1])
  }

  /** Whatever arrives, however it is cut and whichever receives and sends fail, only passing requests are accepted,
      in stream order, and no byte of the stream serves in two of them. */
  lemma {:induction false} ServeOnlyAccepted(env: Environment, s: Segments, failures: nat, attempts: nat)
    ensures var requests := Serve(env, s, failures, attempts).requests;
      Pieces(requests, Flat(s)) && forall i :: 0 <= i < |requests| ==> Accepted(requests[i])
    decreases |Flat(s)|, SOCKET_FAILURES_COUNT - failures
  {
    hide Serve, Read, Unread, Needed, Passes, Supported, Flat, Pieces, Collect, FailuresAfter, AttemptsAfter;
    ServeStep(env, s, failures, attempts);
    if failures < SOCKET_FAILURES_COUNT {
      ReadConsumes(Requests, s);
      FailuresGrow(env, s, failures, attempts);
      var r, rest := Read(Requests, s), Unread(Requests, s);
      var f, a := FailuresAfter(env, r, failures, attempts), AttemptsAfter(env, r, attempts);
      var later := Serve(env, rest, f, a).requests;
      ServeOnlyAccepted(env, rest, f, a);
      if r.Frame? {
        PiecesFirst(r.bytes, later, Flat(rest));
      } else {
        PiecesLater(later, Collect(Requests, [], s).frame, Flat(rest));
      }
    } else {
      NoPieces(Flat(s));
    }
  }

  /** Requests whose deliveries keep to the frame boundaries are all accepted, in order, and nothing else is,
      whatever becomes of the answers. */
  lemma {:induction false} RequestsAligned(env: Environment, s: Segments, frames: seq<seq<byte>>,
                                           failures: nat, attempts: nat)
    requires NoneEmpty(s) && Aligned(s, frames) && Valid(Requests, frames)
    requires failures < SOCKET_FAILURES_COUNT
    ensures Serve(env, s, failures, attempts).requests == frames
    decreases |frames|, SOCKET_FAILURES_COUNT - failures
  {
    hide NoneEmpty, Read, Unread, Flat, Valid, Serve, FailuresAfter, AttemptsAfter, Cut, AfterCut;
    ServeStep(env, s, failures, attempts);
    ReadConsumes(Requests, s);
    FailuresGrow(env, s, failures, attempts);
    var r, rest := Read(Requests, s), Unread(Requests, s);
    var f, a := FailuresAfter(env, r, failures, attempts), AttemptsAfter(env, r, attempts);
    if frames == [] {
      ReadNothing(Requests);
      if f < SOCKET_FAILURES_COUNT {
        RequestsAligned(env, rest, frames, f, a);
      } else {
        ServeStep(env, rest, f, a);
      }
    } else {
      AlignedFirst(Requests, s, frames);
      RequestsAligned(env, rest, frames[1..], f, a);
      assert [frames[0]] + frames[1..] == frames;
    }
  }

  function Replies(env: Environment, frames: seq<seq<byte>>): seq<seq<byte>>
    requires forall f :: f in frames ==> |f| >= 2
  {
    if frames == [] then [] else [Reply(env, Frame(frames[0]))] + Replies(env, frames[1..])
  }

  /** As long as every request has an answer and every send works, each of them gets its own answer, in order. */
  lemma {:induction false} ServeAligned(env: Environment, s: Segments, frames: seq<seq<byte>>,
                                        failures: nat, attempts: nat)
    requires NoneEmpty(s) && Aligned(s, frames) && Valid(Requests, frames)
    requires failures < SOCKET_FAILURES_COUNT
    requires forall k: nat :: env.sendWorks(k)
    requires forall f :: f in frames ==> Reply(env, Frame(f)) != []
    ensures Serve(env, s, failures, attempts) == Served(frames, Replies(env, frames), [])
    decreases |frames|, SOCKET_FAILURES_COUNT - failures
  {
    hide NoneEmpty, Read, Unread, Flat, Passes, WellFormed, Reply, Serve, Cut, AfterCut;
    NoReplyToBroken(env, failures, attempts);
    ReadConsumes(Requests, s);
    ServePass(env, s, failures, attempts);
    if frames == [] {
      ReadNothing(Requests);
      if failures + 1 < SOCKET_FAILURES_COUNT {
        ServeAligned(env, s, frames, failures + 1, attempts);
      } else {
        ServePass(env, s, failures + 1, attempts);
      }
    } else {
      AlignedFirst(Requests, s, frames);
      ServeAligned(env, Unread(Requests, s), frames[1..], 0, attempts + 1);
      assert [frames[0]] + frames[1..] == frames;
    }
  }
}
