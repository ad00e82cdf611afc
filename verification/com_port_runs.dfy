/** What a client of the emulated port gets, in the terms of the response files. */
module ComPortRuns {
  import opened Bytes
  import opened StandardCrc
  import opened CrcTheory
  import opened ComPortModel
  import opened ComPortTheory

  /** The response to a request with a file: the file and a CRC that checks, or as much of both as was asked for. */
  ghost predicate CarriesFile(content: seq<byte>, asked: nat, bytes: seq<byte>) {
    if asked >= |content| + 2 then Passes(bytes) && |bytes| == |content| + 2 && bytes[..|content|] == content
    else
      && |bytes| == asked
      && exists whole :: Passes(whole) && |whole| == |content| + 2 && whole[..|content|] == content
                         && bytes == whole[..asked]
  }

  /** The response to a request without a file: the error answer, or as much of it as was asked for. */
  predicate CarriesError(answer: seq<byte>, asked: nat, bytes: seq<byte>) {
    bytes == if asked >= |answer| then answer else answer[..asked]
  }

  lemma FileAnswer(content: seq<byte>)
    ensures var whole := WithCrc(content);
      Passes(whole) && |whole| == |content| + 2 && whole[..|content|] == content
  {
    hide CheckBytes;
    WithCrcPasses(content);
  }

  /** In every interleaving a response that is handed out to a request carries the response file of its device and
      function with a CRC that checks, or the error answer if there is no file. */
  lemma ResponsesCarryFiles(env: Answering, steps: seq<Step>, i: nat)
    requires i < |Exec(env, CLOSED, steps).given|
    ensures var p := Exec(env, CLOSED, steps);
      var g := p.given[i];
      && g.id < |p.writes|
      && var w := p.writes[g.id].data;
         && Acceptable(w) && |w| >= 2
         && var content := env.files(w[0], w[1]);
            if content != [] then CarriesFile(content, g.asked, g.bytes)
            else CarriesError(env.errors(w[0], w[1]), g.asked, g.bytes)
  {
    hide Exec, Acceptable, Passes, WithCrc, Asked, Answered;
    TruthInEveryRun(env, steps);
    var p := Exec(env, CLOSED, steps);
    var g := p.given[i];
    assert GivenTruly(env, p.writes, g);
    var w := p.writes[g.id].data;
    AcceptableIsLong(w);
    var content := env.files(w[0], w[1]);
    if content != [] {
      FileAnswer(content);
      assert WithCrc(content)[..|content| + 2] == WithCrc(content);
    }
  }

  lemma AcceptableIsLong(w: seq<byte>)
    requires Acceptable(w)
    ensures |w| >= 2
  {
  }

  lemma FourSteps(env: Answering, p: Port, a: Step, b: Step, c: Step, d: Step)
    ensures Exec(env, p, [a, b, c, d]) == Next(env, Next(env, Next(env, Next(env, p, a), b), c), d)
  {
    hide Next;
    ThreeSteps(env, p, a, b, c);
    assert [a, b, c, d][..3] == [a, b, c];
  }

  /** A client that writes a good request while the worker is free, and reads, gets the answer to this very request,
      even if a response or another request was still waiting; both are lost. */
  lemma LastWriteIsAnswered(env: Answering, p: Port, w: seq<byte>, asked: nat)
    requires p.open && p.hand.Free? && p.failures < 3 && Acceptable(w)
    requires |w| >= 2 && env.files(w[0], w[1]) != [] && asked >= |env.files(w[0], w[1])| + 2
    ensures var q := Exec(env, p, [Write(p.ocb, w), Take, Finish, Read(p.ocb, asked)]);
      && q.writes == p.writes + [Written(p.session, w)]
      && |q.given| == |p.given| + 1 && q.given[..|p.given|] == p.given
      && q.given[|p.given|].id == |p.writes| && q.given[|p.given|].session == p.session
      && CarriesFile(env.files(w[0], w[1]), asked, q.given[|p.given|].bytes)
      && q.request.Free? && q.hand.Free? && q.response.Free?
  {
    hide Exec, Acceptable, Passes, WithCrc, Lose;
    FourSteps(env, p, Write(p.ocb, w), Take, Finish, Read(p.ocb, asked));
    var content := env.files(w[0], w[1]);
    FileAnswer(content);
    assert WithCrc(content)[..|content| + 2] == WithCrc(content);
  }

  /** What can still be answered after a point of a run: what the worker holds, and what is written later. */
  ghost predicate OnlyLater(p: Port, q: Port) {
    && |p.given| <= |q.given| && |p.writes| <= |q.writes|
    && (forall i :: |p.given| <= i < |q.given| ==> MayCome(p, q.given[i].id))
    && (q.request.Full? ==> MayCome(p, q.request.note.id))
    && (q.hand.Full? ==> MayCome(p, q.hand.note.id))
    && (q.response.Full? ==> MayCome(p, q.response.note.id))
  }

  predicate MayCome(p: Port, id: nat) {
    id >= |p.writes| || (p.hand.Full? && id == p.hand.note.id)
  }

  lemma NextOnlyLater(env: Answering, p: Port, q: Port, step: Step)
    requires OnlyLater(p, q)
    ensures OnlyLater(p, Next(env, q, step))
  {
    hide Acceptable, AnswerTo, Lose, MayCome;
    assert MayCome(p, |q.writes|) by {
      NewMayCome(p, |q.writes|);
    }
  }

  lemma NewMayCome(p: Port, id: nat)
    requires id >= |p.writes|
    ensures MayCome(p, id)
  {
  }

  lemma {:induction false} RunOnlyLater(env: Answering, p: Port, q: Port, steps: seq<Step>)
    requires OnlyLater(p, q)
    ensures OnlyLater(p, Exec(env, q, steps))
  {
    hide Next, OnlyLater;
    if steps != [] {
      RunOnlyLater(env, p, q, steps[..|steps| - 1]);
      NextOnlyLater(env, p, Exec(env, q, steps[..|steps| - 1]), steps[|steps| - 1]);
    }
  }

  /** A flush by the client forgets: nothing that was written or answered before is handed out afterwards, except the
      answer to the one request the worker is just dealing with. */
  lemma FlushForgets(env: Answering, p: Port, steps: seq<Step>)
    requires p.open
    ensures OnlyLater(p, Exec(env, Next(env, Next(env, p, FlushRequest(p.ocb)), FlushResponse(p.ocb)), steps))
  {
    hide Exec;
    var q := Next(env, Next(env, p, FlushRequest(p.ocb)), FlushResponse(p.ocb));
    assert OnlyLater(p, q);
    RunOnlyLater(env, p, q, steps);
  }

  /** The same holds from each successful open on. */
  lemma OpenForgets(env: Answering, p: Port, ocb: nat, steps: seq<Step>)
    requires !p.open && ocb != 0
    ensures OnlyLater(p, Exec(env, Next(env, p, Open(ocb, true)), steps))
  {
    hide Exec;
    var q := Next(env, p, Open(ocb, true));
    assert OnlyLater(p, q);
    RunOnlyLater(env, p, q, steps);
  }

  /** An open succeeds exactly on a closed port, with memory for the client and the consent of the default handler; then
      the client has a session of its own, and nothing waits for it. */
  lemma OpensIff(env: Answering, p: Port, ocb: nat, granted: bool)
    ensures var q := Next(env, p, Open(ocb, granted));
      if !p.open && ocb != 0 && granted then
        q.open && q.ocb == ocb && q.session == p.session + 1 && q.request.Free? && q.response.Free? && q.hand == p.hand
      else q == p
  {
  }

  /** A closed port answers nobody until it is opened again; closing forgets the request, not the response. */
  lemma ClosedPortIsSilent(env: Answering, p: Port, ocb: nat, data: seq<byte>, asked: nat)
    requires p.open && ocb == p.ocb
    ensures var q := Next(env, p, Close(ocb));
      && !q.open && q.ocb == 0 && q.request.Free? && q.response == p.response && q.hand == p.hand
      && Next(env, q, Write(ocb, data)) == q && Next(env, q, Read(ocb, asked)) == q
  {
  }
}
