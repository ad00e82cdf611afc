/** What holds in every interleaving of the clients of the emulated port with its worker. */
module ComPortTheory {
  import opened Counting
  import opened ComPortModel

  // ----- answers come in the order of the requests, each at most once -----

  function SlotIds(slot: Slot): seq<nat> {
    if slot.Full? then [slot.note.id] else []
  }

  function GivenIds(given: seq<Given>): seq<nat> {
    seq(|given|, i requires 0 <= i < |given| => given[i].id)
  }

  /** All requests that are still of use, from the oldest answer handed out to the newest request. */
  function Trail(p: Port): seq<nat> {
    GivenIds(p.given) + SlotIds(p.response) + SlotIds(p.hand) + SlotIds(p.request)
  }

  ghost predicate InOrder(p: Port) {
    Increasing(Trail(p), |p.writes|)
  }

  lemma Drop(given: seq<nat>, response: seq<nat>, hand: seq<nat>, request: seq<nat>, bound: nat)
    requires Increasing(given + response + hand + request, bound)
    ensures Increasing(given + hand + request, bound)
    ensures Increasing(given + response + hand, bound)
    ensures Increasing(given + hand, bound)
  {
    hide Increasing;
    assert given + response + hand + request == given + response + (hand + request);
    IncreasingWithout(given, response, hand + request, bound);
    assert given + (hand + request) == given + hand + request;
    assert given + response + hand + request + [] == given + response + hand + request;
    IncreasingWithout(given + response + hand, request, [], bound);
    assert given + response + hand + [] == given + response + hand;
    assert given + hand + request + [] == given + hand + request;
    IncreasingWithout(given + hand, request, [], bound);
    assert given + hand + [] == given + hand;
  }

  lemma NextKeepsOrder(env: Answering, p: Port, step: Step)
    requires InOrder(p)
    ensures InOrder(Next(env, p, step))
  {
    hide Increasing, Acceptable, AnswerTo, GivenIds;
    var q := Next(env, p, step);
    var given, response, hand, request := GivenIds(p.given), SlotIds(p.response), SlotIds(p.hand), SlotIds(p.request);
    Drop(given, response, hand, request, |p.writes|);
    match step
    case Open(ocb, granted) =>
      if q != p {
        assert Trail(q) == given + hand;
      }
    case Write(ocb, data) =>
      if p.open && ocb == p.ocb {
        IncreasingMore(given + response + hand, |p.writes|);
      }
    case Take =>
      assert Trail(q) == Trail(p);
    case Finish =>
      if p.hand.Full? {
        if Acceptable(p.hand.note.data) {
          assert Trail(q) == given + hand + request;
        } else {
          IncreasingWithout(given + response, hand, request, |p.writes|);
          assert Trail(q) == given + response + request;
        }
      }
    case Read(ocb, asked) =>
      if p.open && ocb == p.ocb && p.response.Full? {
        GivenMore(p.given, q.given[|p.given|]);
        assert Trail(q) == Trail(p);
      }
    case FlushRequest(ocb) =>
      if p.open && ocb == p.ocb {
        assert Trail(q) == given + response + hand;
      }
    case FlushResponse(ocb) =>
      if p.open && ocb == p.ocb {
        assert Trail(q) == given + hand + request;
      }
    case Close(ocb) =>
      if ocb == p.ocb {
        assert Trail(q) == given + response + hand;
      }
  }

  lemma GivenMore(given: seq<Given>, g: Given)
    ensures GivenIds(given + [g]) == GivenIds(given) + [g.id]
  {
  }

  lemma {:induction false} OrderInEveryRun(env: Answering, steps: seq<Step>)
    ensures InOrder(Exec(env, CLOSED, steps))
  {
    hide Next, InOrder;
    if steps == [] {
      assert InOrder(CLOSED) by {
        NothingWritten();
      }
    } else {
      OrderInEveryRun(env, steps[..|steps| - 1]);
      NextKeepsOrder(env, Exec(env, CLOSED, steps[..|steps| - 1]), steps[|steps| - 1]);
    }
  }

  lemma NothingWritten()
    ensures InOrder(CLOSED)
  {
  }

  // ----- what is handed out answers what was written -----

  ghost predicate Asked(writes: seq<Written>, slot: Slot) {
    slot.Full? ==> slot.note.id < |writes| && slot.note.data == writes[slot.note.id].data
  }

  ghost predicate Answered(env: Answering, writes: seq<Written>, slot: Slot) {
    slot.Full? ==>
      && slot.note.id < |writes| && Acceptable(writes[slot.note.id].data)
      && slot.note.data == AnswerTo(env, writes[slot.note.id].data)
  }

  /** The whole answer to a request the worker accepts, or as much of it as the reader asked for. */
  ghost predicate GivenTruly(env: Answering, writes: seq<Written>, g: Given) {
    && g.id < |writes| && Acceptable(writes[g.id].data)
    && var answer := AnswerTo(env, writes[g.id].data);
       g.bytes == answer[..Least(|answer|, g.asked)]
  }

  ghost predicate Truthful(env: Answering, p: Port) {
    && Asked(p.writes, p.request) && Asked(p.writes, p.hand) && Answered(env, p.writes, p.response)
    && forall i :: 0 <= i < |p.given| ==> GivenTruly(env, p.writes, p.given[i])
  }

  lemma NextKeepsTruth(env: Answering, p: Port, step: Step)
    requires Truthful(env, p)
    ensures Truthful(env, Next(env, p, step))
  {
    hide Acceptable, AnswerTo;
    if step.Write? && p.open && step.ocb == p.ocb {
      forall i | 0 <= i < |p.given|
        ensures GivenTruly(env, p.writes + [Written(p.session, step.data)], p.given[i])
      {
        assert GivenTruly(env, p.writes, p.given[i]);
      }
    }
  }

  lemma {:induction false} TruthInEveryRun(env: Answering, steps: seq<Step>)
    ensures Truthful(env, Exec(env, CLOSED, steps))
  {
    hide Next, Asked, Answered, GivenTruly;
    if steps == [] {
      assert Truthful(env, CLOSED) by {
        NothingToAnswer(env);
      }
    } else {
      TruthInEveryRun(env, steps[..|steps| - 1]);
      NextKeepsTruth(env, Exec(env, CLOSED, steps[..|steps| - 1]), steps[|steps| - 1]);
    }
  }

  lemma NothingToAnswer(env: Answering)
    ensures Truthful(env, CLOSED)
  {
  }

  /** The responses handed out are, in order, answers to a subsequence of the requests written:
      every answer belongs to a request, and a later answer belongs to a later request. */
  lemma ReadsAnswerWrites(env: Answering, steps: seq<Step>, i: nat, j: nat)
    requires i < j < |Exec(env, CLOSED, steps).given|
    ensures var p := Exec(env, CLOSED, steps);
      && GivenTruly(env, p.writes, p.given[i]) && GivenTruly(env, p.writes, p.given[j])
      && p.given[i].id < p.given[j].id
  {
    hide Exec, GivenTruly, Asked, Answered;
    var p := Exec(env, CLOSED, steps);
    TruthInEveryRun(env, steps);
    OrderInEveryRun(env, steps);
    assert Trail(p)[i] == p.given[i].id && Trail(p)[j] == p.given[j].id;
  }

  // ----- every request written is in exactly one place -----

  function In(slot: Slot, id: nat): nat {
    if slot.Full? && slot.note.id == id then 1 else 0
  }

  /** Handed out, waiting as a response, with the worker, waiting as a request, lost, or rejected. */
  function Places(p: Port, id: nat): nat {
    Count(GivenIds(p.given), id) + In(p.response, id) + In(p.hand, id) + In(p.request, id)
    + Count(p.lost, id) + Count(p.rejected, id)
  }

  lemma LoseCounts(lost: seq<nat>, slot: Slot, id: nat)
    ensures Count(Lose(lost, slot), id) == Count(lost, id) + In(slot, id)
  {
    if slot.Full? {
      CountAppend(lost, slot.note.id, id);
    }
  }

  lemma FinishKeepsPlaces(env: Answering, p: Port, id: nat)
    requires p.hand.Full?
    ensures Places(Finished(env, p), id) == Places(p, id) && Finished(env, p).writes == p.writes
  {
    hide Count, Acceptable, AnswerTo, GivenIds, Lose;
    LoseCounts(p.lost, p.response, id);
    CountAppend(p.rejected, p.hand.note.id, id);
  }

  lemma ReadKeepsPlaces(env: Answering, p: Port, ocb: nat, asked: nat, id: nat)
    ensures Places(Next(env, p, Read(ocb, asked)), id) == Places(p, id)
  {
    hide Count, GivenIds;
    if p.response.Full? {
      var note := p.response.note;
      GivenMore(p.given, Given(note.id, p.session, asked, note.data[..Least(|note.data|, asked)]));
      CountAppend(GivenIds(p.given), note.id, id);
    }
  }

  lemma NextKeepsPlaces(env: Answering, p: Port, step: Step, id: nat)
    ensures Places(Next(env, p, step), id) ==
      Places(p, id) + if |p.writes| == id && |Next(env, p, step).writes| > |p.writes| then 1 else 0
    ensures |p.writes| <= |Next(env, p, step).writes| <= |p.writes| + 1
  {
    hide Count, GivenIds, Lose, Finished;
    LoseCounts(p.lost, p.request, id);
    LoseCounts(p.lost, p.response, id);
    LoseCounts(Lose(p.lost, p.request), p.response, id);
    match step
    case Finish =>
      if p.hand.Full? {
        FinishKeepsPlaces(env, p, id);
      }
    case Read(ocb, asked) => ReadKeepsPlaces(env, p, ocb, asked, id);
    case _ =>
  }

  lemma {:induction false} OnePlaceEach(env: Answering, steps: seq<Step>, id: nat)
    ensures Places(Exec(env, CLOSED, steps), id) == if id < |Exec(env, CLOSED, steps).writes| then 1 else 0
  {
    hide Next, Places;
    if steps == [] {
      assert Places(CLOSED, id) == 0 by {
        NoPlaces(id);
      }
    } else {
      OnePlaceEach(env, steps[..|steps| - 1], id);
      NextKeepsPlaces(env, Exec(env, CLOSED, steps[..|steps| - 1]), steps[|steps| - 1], id);
    }
  }

  lemma NoPlaces(id: nat)
    ensures Places(CLOSED, id) == 0
  {
  }

  // ----- the end of the worker -----

  ghost predicate FailuresCounted(p: Port) {
    p.failures == Streak(0, p.finished) <= FAILURES_COUNT && (p.hand.Full? ==> p.failures < FAILURES_COUNT)
  }

  lemma NextCountsFailures(env: Answering, p: Port, step: Step)
    requires FailuresCounted(p)
    ensures FailuresCounted(Next(env, p, step))
  {
    hide Acceptable, AnswerTo, Lose, Streak;
    StreakGrows(0, p.finished, true);
    StreakGrows(0, p.finished, false);
  }

  /** The worker stops for good exactly after three rejections in a row; it never counts a fourth. */
  lemma {:induction false} FailuresAreAStreak(env: Answering, steps: seq<Step>)
    ensures var p := Exec(env, CLOSED, steps);
      p.failures == Streak(0, p.finished) <= 3 && (p.hand.Full? ==> p.failures < 3)
  {
    hide Next;
    if steps != [] {
      FailuresAreAStreak(env, steps[..|steps| - 1]);
      NextCountsFailures(env, Exec(env, CLOSED, steps[..|steps| - 1]), steps[|steps| - 1]);
    }
  }

  /** A stopped worker answers nobody: from then on at most the response that is already there is handed out. */
  lemma {:induction false} NothingAfterTheStop(env: Answering, p: Port, steps: seq<Step>)
    requires p.failures >= 3 && p.hand.Free?
    ensures var q := Exec(env, p, steps);
      && q.failures == p.failures && q.hand.Free? && q.finished == p.finished
      && |q.given| + |SlotIds(q.response)| <= |p.given| + |SlotIds(p.response)|
  {
    if steps != [] {
      NothingAfterTheStop(env, p, steps[..|steps| - 1]);
    }
  }

  // ----- whose answer a client reads -----

  /** An answer that was written and read in the same session. */
  predicate Own(p: Port, g: Given) {
    g.id < |p.writes| && p.writes[g.id].session == g.session
  }

  ghost predicate AllOwn(p: Port) {
    forall i :: 0 <= i < |p.given| ==> Own(p, p.given[i])
  }

  /** The worker still holds a request that it will answer. */
  predicate WillAnswer(p: Port) {
    p.hand.Full? && Acceptable(p.hand.note.data)
  }

  /** Whenever the port is opened in the run, no answer is on its way from the worker. */
  ghost predicate QuietOpens(env: Answering, steps: seq<Step>) {
    steps != [] ==>
      var before, last := steps[..|steps| - 1], steps[|steps| - 1];
      var p := Exec(env, CLOSED, before);
      QuietOpens(env, before) && (last.Open? && Next(env, p, last) != p ==> !WillAnswer(p))
  }

  predicate FromSession(p: Port, slot: Slot) {
    slot.Full? ==> slot.note.id < |p.writes| && p.writes[slot.note.id].session == p.session
  }

  ghost predicate Separated(p: Port) {
    && (p.request.Full? ==> p.open)
    && FromSession(p, p.request) && FromSession(p, p.response)
    && (WillAnswer(p) ==> FromSession(p, p.hand))
    && AllOwn(p)
  }

  lemma NextKeepsSessionsApart(env: Answering, p: Port, step: Step)
    requires Separated(p)
    requires step.Open? && Next(env, p, step) != p ==> !WillAnswer(p)
    ensures Separated(Next(env, p, step))
  {
    hide Acceptable, AnswerTo, Lose;
  }

  /** If every open is quiet, no client ever reads an answer to the request of an earlier one. */
  lemma {:induction false} QuietOpensKeepSessionsApart(env: Answering, steps: seq<Step>)
    requires QuietOpens(env, steps)
    ensures Separated(Exec(env, CLOSED, steps))
  {
    hide Next, Separated, WillAnswer;
    if steps == [] {
      assert Separated(CLOSED) by {
        ClosedIsSeparated();
      }
    } else {
      QuietOpensKeepSessionsApart(env, steps[..|steps| - 1]);
      NextKeepsSessionsApart(env, Exec(env, CLOSED, steps[..|steps| - 1]), steps[|steps| - 1]);
    }
  }

  lemma ClosedIsSeparated()
    ensures Separated(CLOSED)
  {
  }

  ghost predicate OldWrites(p: Port) {
    && (forall i :: 0 <= i < |p.writes| ==> p.writes[i].session <= p.session)
    && (p.hand.Full? ==> p.hand.note.id < |p.writes|) && (p.request.Full? ==> p.request.note.id < |p.writes|)
  }

  lemma {:induction false} WritesAreOld(env: Answering, steps: seq<Step>)
    ensures OldWrites(Exec(env, CLOSED, steps))
  {
    hide Acceptable, AnswerTo, Lose;
    if steps != [] {
      WritesAreOld(env, steps[..|steps| - 1]);
    }
  }

  function StrangerSteps(ocb: nat, asked: nat): seq<Step> {
    [Open(ocb, true), Finish, Read(ocb, asked)]
  }

  /** A closed port can be opened without handing a stranger's answer to the new client
      exactly when the worker has no answer on its way. */
  lemma QuietOpenIffOwnAnswer(env: Answering, steps: seq<Step>, ocb: nat, asked: nat)
    requires !Exec(env, CLOSED, steps).open && ocb != 0 && AllOwn(Exec(env, CLOSED, steps))
    ensures AllOwn(Exec(env, Exec(env, CLOSED, steps), StrangerSteps(ocb, asked)))
      <==> !WillAnswer(Exec(env, CLOSED, steps))
  {
    var p := Exec(env, CLOSED, steps);
    WritesAreOld(env, steps);
    hide Acceptable, AnswerTo, Lose;
    ThreeSteps(env, p, Open(ocb, true), Finish, Read(ocb, asked));
    hide Exec;
    var q := Next(env, Next(env, p, Open(ocb, true)), Finish);
    var r := Next(env, q, Read(ocb, asked));
    if WillAnswer(p) {
      assert r.given[|p.given|].id == p.hand.note.id;
      assert !Own(r, r.given[|p.given|]);
    } else {
      assert r.given == p.given && r.writes == p.writes;
      assert forall i :: 0 <= i < |p.given| ==> Own(p, p.given[i]);
    }
  }

  lemma ThreeSteps(env: Answering, p: Port, a: Step, b: Step, c: Step)
    ensures Exec(env, p, [a, b, c]) == Next(env, Next(env, Next(env, p, a), b), c)
  {
    hide Next;
    assert [a, b, c][..2] == [a, b] && [a, b][..1] == [a] && [a][..0] == [];
    assert Exec(env, p, []) == p;
    assert Exec(env, p, [a]) == Next(env, p, a);
  }
}
