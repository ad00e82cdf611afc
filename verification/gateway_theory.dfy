/** What holds in every run of the gateway, whatever the clients, the line and the devices do. */
module GatewayTheory {
  import opened Bytes
  import opened StandardCrc
  import opened CrcTheory
  import opened GatewayModel
  import opened Counting

  // ----- messages keep their content -----

  ghost predicate IsMessage(m: seq<byte>) {
    4 <= |m| <= 259 && m[1] == 0 && Passes(m[2..])
  }

  /** The entry is the accepted message with another repeat count. */
  ghost predicate CopyOf(accepted: seq<seq<byte>>, e: Entry, limit: byte) {
    && e.id < |accepted| && IsMessage(accepted[e.id])
    && |e.msg| == |accepted[e.id]| && e.msg[1] <= limit
    && e.msg == accepted[e.id][1 := e.msg[1]]
  }

  ghost predicate TrueReply(accepted: seq<seq<byte>>, r: Reply) {
    && r.id < |accepted| && IsMessage(accepted[r.id])
    && r.sock == accepted[r.id][0]
    && match r.cause
       case Silence => r.bytes == NoResponseBytes(accepted[r.id][2], accepted[r.id][3])
       case Answer(p) => |p| >= 2 && Passes(p) && r.bytes == AnswerBytes(p)
  }

  ghost predicate Faithful(g: Gateway) {
    && (forall i :: 0 <= i < |g.accepted| ==> IsMessage(g.accepted[i]))
    && (forall i :: 0 <= i < |g.queue| ==> CopyOf(g.accepted, g.queue[i], 3))
    && (g.phase.GaveUp? ==> CopyOf(g.accepted, g.phase.entry, 3))
    && (g.phase.Taken? || g.phase.Waiting? ==> CopyOf(g.accepted, g.phase.entry, 2))
    && (forall i :: 0 <= i < |g.sent| ==> CopyOf(g.accepted, g.sent[i], 2))
    && (forall i :: 0 <= i < |g.replies| ==> TrueReply(g.accepted, g.replies[i]))
  }

  lemma MessageIsMessage(sock: int, payload: seq<byte>)
    requires |payload| <= 255
    ensures IsMessage(Message(sock, payload))
  {
    hide Passes, CheckBytes;
    WithCrcPasses(payload);
    assert Message(sock, payload)[2..] == WithCrc(payload);
  }

  /** The queue carries the socket number as far as a byte holds it, a fresh repeat count, and the request unchanged
      with a CRC that checks. */
  lemma MessageCarriesRequest(sock: int, payload: seq<byte>)
    ensures var m := Message(sock, payload);
      && |m| == |payload| + 4 && ToInt(m[0]) == sock % 256 && m[1] == 0
      && m[2..|payload| + 2] == payload && Passes(m[2..])
  {
    hide Passes, CheckBytes, ToByte, ToInt;
    LowBitsOnly(sock);
    ByteRoundTrip(sock % 256);
    WithCrcPasses(payload);
    var m := Message(sock, payload);
    assert m[2..] == WithCrc(payload);
    assert m[2..|payload| + 2] == m[2..][..|payload|];
  }

  lemma NewEntry(accepted: seq<seq<byte>>, m: seq<byte>)
    requires IsMessage(m)
    ensures CopyOf(accepted + [m], Entry(|accepted|, m), 3)
  {
  }

  lemma RepeatedIsCopy(accepted: seq<seq<byte>>, e: Entry)
    requires CopyOf(accepted, e, 2)
    ensures CopyOf(accepted, Repeated(e), 3)
    ensures e.msg[1] + 1 <= MAX_ADDRESS
  {
    assert e.msg[1] + 1 <= 3;
  }

  lemma RequeueKeepsFaithful(g: Gateway, e: Entry)
    requires Faithful(g) && CopyOf(g.accepted, e, 2)
    ensures Requeue(g, e) == g.(phase := Idle, queue := g.queue + [Repeated(e)])
    ensures Faithful(Requeue(g, e))
  {
    RepeatedIsCopy(g.accepted, e);
    hide CopyOf, TrueReply, IsMessage;
  }

  lemma OutcomeKeepsFaithful(g: Gateway, e: Entry, heard: Heard)
    requires Faithful(g) && CopyOf(g.accepted, e, 2)
    ensures Faithful(Outcome(g, e, heard))
  {
    hide IsMessage, Passes, AnswerBytes, NoResponseBytes;
    match heard
    case Nothing => RequeueKeepsFaithful(g, e);
    case Gap => RequeueKeepsFaithful(g.(silent := 0), e);
    case FirstFailed =>
    case MidFailed =>
    case Discarded =>
    case Packet(p) =>
  }

  lemma NextKeepsFaithful(g: Gateway, step: Step)
    requires AllSized(g) && Faithful(g)
    ensures Faithful(Next(g, step))
  {
    hide IsMessage, Passes, AnswerBytes, NoResponseBytes, Message, Hear;
    if !g.rebooted {
      match step
      case Accept(sock, payload) =>
        if |payload| <= 255 {
          MessageIsMessage(sock, payload);
          NewEntry(g.accepted, Message(sock, payload));
        }
      case GiveUp =>
      case Take =>
      case Transmit(lineFree) =>
      case Listen(events) =>
        if g.phase.Waiting? {
          OutcomeKeepsFaithful(g, g.phase.entry, Hear(events));
        }
    }
  }

  // ----- every accepted request is in exactly one place -----

  function Ids(entries: seq<Entry>): seq<nat> {
    if entries == [] then [] else Ids(entries[..|entries| - 1]) + [entries[|entries| - 1].id]
  }

  function ReplyIds(replies: seq<Reply>): seq<nat> {
    if replies == [] then [] else ReplyIds(replies[..|replies| - 1]) + [replies[|replies| - 1].id]
  }

  function InHand(phase: Phase): seq<nat> {
    if phase.Idle? then [] else [phase.entry.id]
  }

  /** How often a request is queued, in hand, answered (with a packet or with no-response) or dropped. */
  function Places(g: Gateway, id: nat): nat {
    Count(Ids(g.queue), id) + Count(InHand(g.phase), id) + Count(ReplyIds(g.replies), id) + Count(g.dropped, id)
  }

  lemma QueueAppend(queue: seq<Entry>, e: Entry, id: nat)
    ensures Count(Ids(queue + [e]), id) == Count(Ids(queue), id) + if e.id == id then 1 else 0
  {
    assert (queue + [e])[..|queue|] == queue;
    CountAppend(Ids(queue), e.id, id);
  }

  lemma {:induction false} IdsTail(entries: seq<Entry>)
    requires entries != []
    ensures Ids(entries) == [entries[0].id] + Ids(entries[1..])
  {
    if |entries| == 1 {
      assert entries[..0] == [] && entries[1..] == [];
      assert Ids(entries[..0]) == [];
    } else {
      var front, last := entries[..|entries| - 1], entries[|entries| - 1];
      IdsTail(front);
      assert front[1..] + [last] == entries[1..];
      assert (front[1..] + [last])[..|front| - 1] == front[1..];
    }
  }

  lemma QueueTail(queue: seq<Entry>, id: nat)
    requires queue != []
    ensures Count(Ids(queue), id) == Count(Ids(queue[1..]), id) + if queue[0].id == id then 1 else 0
  {
    IdsTail(queue);
    assert Ids(queue)[1..] == Ids(queue[1..]);
    CountTail(Ids(queue), id);
  }

  lemma ReplyAppend(replies: seq<Reply>, r: Reply, id: nat)
    ensures Count(ReplyIds(replies + [r]), id) == Count(ReplyIds(replies), id) + if r.id == id then 1 else 0
  {
    assert (replies + [r])[..|replies|] == replies;
    CountAppend(ReplyIds(replies), r.id, id);
  }

  lemma RequeueKeepsPlaces(g: Gateway, e: Entry, id: nat)
    requires |e.msg| >= 2
    ensures Places(Requeue(g, e), id)
         == Places(g.(phase := Idle), id) + if e.id == id then 1 else 0
    ensures Requeue(g, e).accepted == g.accepted
  {
    hide Ids, Count, ReplyIds;
    QueueAppend(g.queue, Repeated(e), id);
    CountAppend(g.dropped, e.id, id);
  }

  lemma OutcomeKeepsPlaces(g: Gateway, e: Entry, heard: Heard, id: nat)
    requires |e.msg| >= 4 && g.phase == Waiting(e)
    ensures Places(Outcome(g, e, heard), id) == Places(g, id) && Outcome(g, e, heard).accepted == g.accepted
  {
    hide Ids, ReplyIds, Count, Passes, AnswerBytes, Requeue;
    CountOne(e.id, id);
    match heard
    case Nothing => RequeueKeepsPlaces(g, e, id);
    case Gap => RequeueKeepsPlaces(g.(silent := 0), e, id);
    case FirstFailed =>
    case MidFailed =>
    case Discarded => CountAppend(g.dropped, e.id, id);
    case Packet(p) =>
      CountAppend(g.dropped, e.id, id);
      if |p| >= 2 {
        ReplyAppend(g.replies, Reply(e.id, e.msg[0], AnswerBytes(p), Answer(p)), id);
      }
  }

  lemma NextKeepsPlaces(g: Gateway, step: Step, id: nat)
    requires AllSized(g)
    ensures var h := Next(g, step);
      Places(h, id) == Places(g, id) + if |h.accepted| > |g.accepted| && id == |g.accepted| then 1 else 0
    ensures |g.accepted| <= |Next(g, step).accepted| <= |g.accepted| + 1
  {
    hide Ids, ReplyIds, Count, Passes, AnswerBytes, NoResponseBytes, Message, Hear, Outcome;
    if !g.rebooted {
      match step
      case Accept(sock, payload) =>
        QueueAppend(g.queue, Entry(|g.accepted|, Message(sock, payload)), id);
      case GiveUp =>
        if g.phase.GaveUp? {
          var e := g.phase.entry;
          CountOne(e.id, id);
          ReplyAppend(g.replies, Reply(e.id, e.msg[0], NoResponseBytes(e.msg[2], e.msg[3]), Silence), id);
        }
      case Take =>
        if g.queue != [] {
          CountOne(g.queue[0].id, id);
          QueueTail(g.queue, id);
        }
      case Transmit(lineFree) =>
      case Listen(events) =>
        if g.phase.Waiting? {
          OutcomeKeepsPlaces(g, g.phase.entry, Hear(events), id);
        }
    }
  }

  /** Every accepted request is in exactly one place, in every run; nothing else is anywhere. */
  lemma {:induction false} OnePlaceEach(steps: seq<Step>, id: nat)
    ensures var g := Exec(START_STATE, steps); Places(g, id) == if id < |g.accepted| then 1 else 0
  {
    hide Next;
    if steps != [] {
      OnePlaceEach(steps[..|steps| - 1], id);
      NextKeepsPlaces(Exec(START_STATE, steps[..|steps| - 1]), steps[|steps| - 1], id);
    }
  }

  lemma {:induction false} FaithfulRun(steps: seq<Step>)
    ensures Faithful(Exec(START_STATE, steps))
  {
    hide Next, CopyOf, TrueReply, IsMessage;
    if steps != [] {
      FaithfulRun(steps[..|steps| - 1]);
      NextKeepsFaithful(Exec(START_STATE, steps[..|steps| - 1]), steps[|steps| - 1]);
    }
  }

  // ----- how often and in which order requests are transmitted -----

  function Tries(e: Entry): nat
    requires Sized(e)
  {
    e.msg[1] as int
  }

  lemma SmallTries(b: byte)
    requires b <= 3
    ensures 0 <= b as int <= 3
    ensures b > MAX_RETRY <==> b as int == 3
    ensures b <= 2 ==> (b + 1) as int == b as int + 1
    ensures b as int == 0 <==> b == 0
  {
  }

  lemma {:induction false} InQueueCounts(queue: seq<Entry>, i: nat)
    requires i < |queue|
    ensures Count(Ids(queue), queue[i].id) >= 1
  {
    var front := queue[..|queue| - 1];
    assert queue == front + [queue[|queue| - 1]];
    QueueAppend(front, queue[|queue| - 1], queue[i].id);
    if i < |front| {
      InQueueCounts(front, i);
      assert front[i] == queue[i];
    }
  }

  /** The repeat count of a request tells how often it has been on the line. */
  ghost predicate CountedSends(g: Gateway, id: nat)
    requires AllSized(g)
  {
    var sends := Count(Ids(g.sent), id);
    && sends <= 3
    && (id >= |g.accepted| ==> sends == 0)
    && (forall i :: 0 <= i < |g.queue| && g.queue[i].id == id ==> Tries(g.queue[i]) == sends)
    && (g.phase.Taken? && g.phase.entry.id == id ==> Tries(g.phase.entry) == sends)
    && (g.phase.Waiting? && g.phase.entry.id == id ==> Tries(g.phase.entry) + 1 == sends)
  }

  lemma RequeueKeepsSends(g: Gateway, e: Entry, id: nat)
    requires AllSized(g) && Faithful(g) && CountedSends(g, id)
    requires CopyOf(g.accepted, e, 2) && (e.id == id ==> Tries(e) + 1 == Count(Ids(g.sent), id))
    ensures AllSized(Requeue(g, e)) && CountedSends(Requeue(g, e), id)
  {
    RequeueKeepsFaithful(g, e);
    SmallTries(e.msg[1]);
    hide Faithful, CopyOf, IsMessage, Count, Ids;
  }

  lemma NextKeepsSends(g: Gateway, step: Step, id: nat)
    requires AllSized(g) && Faithful(g) && CountedSends(g, id)
    requires Places(g, id) <= 1
    ensures CountedSends(Next(g, step), id)
  {
    hide Ids, ReplyIds, Count, Passes, AnswerBytes, NoResponseBytes, Hear, TrueReply, IsMessage, Message;
    if !g.rebooted {
      match step
      case Accept(sock, payload) =>
      case GiveUp =>
      case Take =>
      case Transmit(lineFree) =>
        if g.phase.Taken? {
          var e := g.phase.entry;
          SmallTries(e.msg[1]);
          QueueAppend(g.sent, e, id);
          CountOne(e.id, id);
          if e.id == id {
            forall i | 0 <= i < |g.queue|
              ensures g.queue[i].id != id
            {
              InQueueCounts(g.queue, i);
            }
          }
        }
      case Listen(events) =>
        if g.phase.Waiting? {
          match Hear(events)
          case Nothing => RequeueKeepsSends(g, g.phase.entry, id);
          case Gap => RequeueKeepsSends(g.(silent := 0), g.phase.entry, id);
          case _ =>
        }
    }
  }

  lemma {:induction false} CountedSendsRun(steps: seq<Step>, id: nat)
    ensures CountedSends(Exec(START_STATE, steps), id)
  {
    hide Next, CountedSends, Places;
    if steps == [] {
      NothingSent(id);
    } else {
      var before := steps[..|steps| - 1];
      CountedSendsRun(before, id);
      FaithfulRun(before);
      OnePlaceEach(before, id);
      NextKeepsSends(Exec(START_STATE, before), steps[|steps| - 1], id);
    }
  }

  lemma NothingSent(id: nat)
    ensures CountedSends(START_STATE, id)
  {
  }

  function FreshIds(entries: seq<Entry>): seq<nat>
    requires forall i :: 0 <= i < |entries| ==> Sized(entries[i])
  {
    if entries == [] then []
    else
      var last := entries[|entries| - 1];
      assert Sized(last);
      FreshIds(entries[..|entries| - 1]) + if last.msg[1] == 0 then [last.id] else []
  }

  /** The requests in the order of their first transmission: done, next, and still to come. */
  function FirstSends(g: Gateway): seq<nat>
    requires forall i :: 0 <= i < |g.queue| ==> Sized(g.queue[i])
    requires forall i :: 0 <= i < |g.sent| ==> Sized(g.sent[i])
    requires g.phase.Taken? ==> Sized(g.phase.entry)
  {
    FreshIds(g.sent)
    + (if g.phase.Taken? && g.phase.entry.msg[1] == 0 then [g.phase.entry.id] else [])
    + FreshIds(g.queue)
  }

  ghost predicate SentSized(g: Gateway) {
    forall i :: 0 <= i < |g.sent| ==> Sized(g.sent[i])
  }

  lemma FreshAppend(entries: seq<Entry>, e: Entry)
    requires Sized(e) && forall i :: 0 <= i < |entries| ==> Sized(entries[i])
    ensures FreshIds(entries + [e]) == FreshIds(entries) + if e.msg[1] == 0 then [e.id] else []
  {
    assert (entries + [e])[..|entries|] == entries;
  }

  lemma NoFreshIds()
    ensures FreshIds([]) == []
  {
  }

  lemma {:induction false} FreshTail(entries: seq<Entry>)
    requires entries != [] && forall i :: 0 <= i < |entries| ==> Sized(entries[i])
    ensures FreshIds(entries) == (if entries[0].msg[1] == 0 then [entries[0].id] else []) + FreshIds(entries[1..])
  {
    hide FreshIds;
    var front, last := entries[..|entries| - 1], entries[|entries| - 1];
    assert entries == front + [last];
    FreshAppend(front, last);
    if |entries| == 1 {
      NoFreshIds();
      assert entries[1..] == [];
    } else {
      FreshTail(front);
      assert front[1..] + [last] == entries[1..];
      FreshAppend(front[1..], last);
    }
  }

  lemma RequeueKeepsOrder(g: Gateway, e: Entry)
    requires AllSized(g) && SentSized(g) && g.phase == Waiting(e) && CopyOf(g.accepted, e, 2)
    ensures AllSized(Requeue(g, e)) && FirstSends(Requeue(g, e)) == FirstSends(g)
  {
    RepeatedIsCopy(g.accepted, e);
    assert e.msg[1] + 1 != 0;
    hide CopyOf, IsMessage, FreshIds;
    FreshAppend(g.queue, Repeated(e));
  }

  lemma FirstSendsAfterTransmit(g: Gateway, lineFree: bool)
    requires AllSized(g) && SentSized(g) && g.phase.Taken? && !g.rebooted
    requires Increasing(FirstSends(g), |g.accepted|)
    ensures SentSized(Next(g, Transmit(lineFree)))
    ensures Increasing(FirstSends(Next(g, Transmit(lineFree))), |g.accepted|)
  {
    hide FreshIds;
    var h := Next(g, Transmit(lineFree));
    var done, isFirst, coming := FreshIds(g.sent), g.phase.entry.msg[1] == 0, FreshIds(g.queue);
    FreshAppend(g.sent, g.phase.entry);
    if lineFree || !isFirst {
      assert FirstSends(h) == FirstSends(g);
    } else {
      assert FirstSends(g) == done + [g.phase.entry.id] + coming && FirstSends(h) == done + coming;
      forall i | 0 <= i < |done + coming|
        ensures (done + coming)[i] == FirstSends(g)[if i < |done| then i else i + 1]
      {
      }
    }
  }

  /** No step puts one first transmission before an older one. */
  lemma NextKeepsOrder(g: Gateway, step: Step)
    requires AllSized(g) && SentSized(g) && Faithful(g) && Increasing(FirstSends(g), |g.accepted|)
    ensures SentSized(Next(g, step)) && Increasing(FirstSends(Next(g, step)), |Next(g, step).accepted|)
  {
    hide FreshIds, Passes, AnswerBytes, NoResponseBytes, Hear, TrueReply, IsMessage, Message;
    if !g.rebooted {
      match step
      case Accept(sock, payload) =>
        FreshAppend(g.queue, Entry(|g.accepted|, Message(sock, payload)));
        if |payload| <= 255 {
          assert FirstSends(Next(g, step)) == FirstSends(g) + [|g.accepted|];
        }
      case GiveUp =>
      case Take =>
        if g.queue != [] {
          FreshTail(g.queue);
          assert FirstSends(Next(g, step)) == FirstSends(g);
        }
      case Transmit(lineFree) =>
        if g.phase.Taken? {
          FreshAppend(g.sent, g.phase.entry);
          FirstSendsAfterTransmit(g, lineFree);
        }
      case Listen(events) =>
        if g.phase.Waiting? {
          match Hear(events)
          case Nothing => RequeueKeepsOrder(g, g.phase.entry);
          case Gap => RequeueKeepsOrder(g.(silent := 0), g.phase.entry);
          case _ =>
        }
    }
  }

  /** First transmissions follow the order of acceptance, in every run. */
  lemma {:induction false} FirstSendsInOrder(steps: seq<Step>)
    ensures var g := Exec(START_STATE, steps);
      SentSized(g) && Increasing(FirstSends(g), |g.accepted|) && Increasing(FreshIds(g.sent), |g.accepted|)
  {
    hide Next, Faithful, Sized, FreshIds;
    if steps == [] {
      NothingFresh();
    } else {
      var before := steps[..|steps| - 1];
      FirstSendsInOrder(before);
      FaithfulRun(before);
      NextKeepsOrder(Exec(START_STATE, before), steps[|steps| - 1]);
    }
    var g := Exec(START_STATE, steps);
    var first := FreshIds(g.sent);
    assert forall i :: 0 <= i < |first| ==> first[i] == FirstSends(g)[i];
  }

  lemma NothingFresh()
    ensures FirstSends(START_STATE) == []
  {
  }

  // ----- the queue drains -----

  function Work(queue: seq<Entry>): int
    requires forall i :: 0 <= i < |queue| ==> Sized(queue[i])
  {
    if queue == [] then 0 else Work(queue[..|queue| - 1]) + 4 - Tries(queue[|queue| - 1])
  }

  /** How many more times something can be taken from the queue if nobody adds to it. */
  function Drain(g: Gateway): int
    requires forall i :: 0 <= i < |g.queue| ==> Sized(g.queue[i])
    requires g.phase.Taken? || g.phase.Waiting? ==> Sized(g.phase.entry)
  {
    Work(g.queue) + if g.phase.Taken? || g.phase.Waiting? then 3 - Tries(g.phase.entry) else 0
  }

  lemma WorkAppend(queue: seq<Entry>, e: Entry)
    requires Sized(e) && forall i :: 0 <= i < |queue| ==> Sized(queue[i])
    ensures Work(queue + [e]) == Work(queue) + 4 - Tries(e)
  {
    assert (queue + [e])[..|queue|] == queue;
  }

  lemma {:induction false} WorkTail(queue: seq<Entry>)
    requires queue != [] && forall i :: 0 <= i < |queue| ==> Sized(queue[i])
    ensures Work(queue) == 4 - Tries(queue[0]) + Work(queue[1..])
  {
    hide Sized, Tries;
    if |queue| == 1 {
      assert queue[..0] == [] && queue[1..] == [];
    } else {
      var front, last := queue[..|queue| - 1], queue[|queue| - 1];
      WorkTail(front);
      assert front[1..] + [last] == queue[1..];
      WorkAppend(front[1..], last);
    }
  }

  ghost predicate Dequeues(g: Gateway, step: Step)
    requires AllSized(g)
  {
    |Next(g, step).queue| < |g.queue|
  }

  lemma RequeueKeepsDrain(g: Gateway, e: Entry)
    requires AllSized(g) && g.phase == Waiting(e) && CopyOf(g.accepted, e, 2)
    ensures AllSized(Requeue(g, e)) && Drain(Requeue(g, e)) == Drain(g)
  {
    RepeatedIsCopy(g.accepted, e);
    SmallTries(e.msg[1]);
    hide CopyOf, IsMessage, Work;
    WorkAppend(g.queue, Repeated(e));
  }

  lemma AcceptDrains(g: Gateway, sock: int, payload: seq<byte>)
    requires AllSized(g) && !g.rebooted && |payload| <= 255
    ensures Drain(Next(g, Accept(sock, payload))) == Drain(g) + 4
    ensures !Dequeues(g, Accept(sock, payload)) && |Next(g, Accept(sock, payload)).accepted| == |g.accepted| + 1
  {
    hide Work, Message;
    WorkAppend(g.queue, Entry(|g.accepted|, Message(sock, payload)));
    SmallTries(0);
  }

  lemma TakeDrains(g: Gateway)
    requires AllSized(g) && Faithful(g) && !g.rebooted
    ensures Drain(Next(g, Take)) <= Drain(g) - (if Dequeues(g, Take) then 1 else 0)
    ensures Next(g, Take).accepted == g.accepted
  {
    hide Work, TrueReply, IsMessage;
    if g.queue != [] {
      WorkTail(g.queue);
      SmallTries(g.queue[0].msg[1]);
    }
  }

  lemma OutcomeDrains(g: Gateway, heard: Heard)
    requires AllSized(g) && Faithful(g) && g.phase.Waiting?
    ensures var h := Outcome(g, g.phase.entry, heard);
      AllSized(h) && Drain(h) <= Drain(g) && |h.queue| >= |g.queue| && h.accepted == g.accepted
  {
    hide Work, Passes, AnswerBytes, TrueReply, IsMessage;
    var e := g.phase.entry;
    SmallTries(e.msg[1]);
    RepeatedIsCopy(g.accepted, e);
    match heard
    case Nothing => RequeueKeepsDrain(g, e);
    case Gap => RequeueKeepsDrain(g.(silent := 0), e);
    case _ =>
  }

  /** Taking a request uses up one unit, accepting one adds four, nothing else adds any. */
  lemma NextDrains(g: Gateway, step: Step)
    requires AllSized(g) && Faithful(g)
    ensures Drain(Next(g, step)) <= Drain(g) - (if Dequeues(g, step) then 1 else 0)
                                  + (if |Next(g, step).accepted| > |g.accepted| then 4 else 0)
  {
    hide Work, NoResponseBytes, Hear, TrueReply, IsMessage, Message, Outcome;
    if !g.rebooted {
      match step
      case Accept(sock, payload) =>
        if |payload| <= 255 {
          AcceptDrains(g, sock, payload);
        }
      case GiveUp =>
      case Take => TakeDrains(g);
      case Transmit(lineFree) =>
        if g.phase.Taken? {
          SmallTries(g.phase.entry.msg[1]);
        }
      case Listen(events) =>
        if g.phase.Waiting? {
          OutcomeDrains(g, Hear(events));
        }
    }
  }

  ghost function Dequeued(g: Gateway, steps: seq<Step>): nat
    requires AllSized(g)
  {
    if steps == [] then 0
    else
      var before := steps[..|steps| - 1];
      Dequeued(g, before) + if Dequeues(Exec(g, before), steps[|steps| - 1]) then 1 else 0
  }

  lemma {:induction false} FaithfulFrom(g: Gateway, steps: seq<Step>)
    requires AllSized(g) && Faithful(g)
    ensures Faithful(Exec(g, steps))
  {
    hide Next, CopyOf, TrueReply, IsMessage;
    if steps != [] {
      FaithfulFrom(g, steps[..|steps| - 1]);
      NextKeepsFaithful(Exec(g, steps[..|steps| - 1]), steps[|steps| - 1]);
    }
  }

  lemma {:induction false} WorkIsBounded(queue: seq<Entry>)
    requires forall i :: 0 <= i < |queue| ==> Sized(queue[i]) && queue[i].msg[1] <= 3
    ensures |queue| <= Work(queue) <= 4 * |queue|
  {
    if queue != [] {
      WorkIsBounded(queue[..|queue| - 1]);
      SmallTries(queue[|queue| - 1].msg[1]);
    }
  }

  /** Every dequeue of a run is paid for by what was queued before it or accepted during it. */
  lemma {:induction false} DequeuesArePaidFor(g: Gateway, steps: seq<Step>)
    requires AllSized(g) && Faithful(g)
    ensures var h := Exec(g, steps);
      |g.accepted| <= |h.accepted|
      && Dequeued(g, steps) + Drain(h) <= Drain(g) + 4 * (|h.accepted| - |g.accepted|)
    ensures Drain(Exec(g, steps)) >= |Exec(g, steps).queue|
  {
    hide Next, CopyOf, TrueReply, IsMessage, Work, Dequeues;
    FaithfulFrom(g, steps);
    DrainCoversQueue(Exec(g, steps));
    if steps != [] {
      var before := steps[..|steps| - 1];
      DequeuesArePaidFor(g, before);
      FaithfulFrom(g, before);
      NextDrains(Exec(g, before), steps[|steps| - 1]);
      NextKeepsPlaces(Exec(g, before), steps[|steps| - 1], 0);
    }
  }

  lemma DrainCoversQueue(g: Gateway)
    requires AllSized(g) && Faithful(g)
    ensures |g.queue| <= Drain(g)
    ensures g.phase.Idle? ==> Drain(g) <= 4 * |g.queue|
  {
    hide IsMessage, TrueReply, Work;
    WorkIsBounded(g.queue);
    if g.phase.Taken? || g.phase.Waiting? {
      SmallTries(g.phase.entry.msg[1]);
    }
  }

  /** Without new requests, n waiting ones are gone after at most 4n dequeues, whatever the devices do. */
  lemma QueueDrains(g: Gateway, steps: seq<Step>)
    requires AllSized(g) && Faithful(g) && g.phase.Idle?
    requires |Exec(g, steps).accepted| == |g.accepted|
    ensures Dequeued(g, steps) + |Exec(g, steps).queue| <= 4 * |g.queue|
  {
    hide Next, Faithful, Work, Drain;
    DequeuesArePaidFor(g, steps);
    DrainCoversQueue(g);
  }

  /** A repeat is never refused by the address check, so no request is lost on the way back to the queue. */
  lemma RepeatsAreNeverRefused(steps: seq<Step>)
    ensures var g := Exec(START_STATE, steps);
      g.phase.Waiting? ==>
        g.phase.entry.msg[1] + 1 <= 3
        && Requeue(g, g.phase.entry) == g.(phase := Idle, queue := g.queue + [Repeated(g.phase.entry)])
  {
    hide Exec;
    FaithfulRun(steps);
    var g := Exec(START_STATE, steps);
    if g.phase.Waiting? {
      RequeueKeepsFaithful(g, g.phase.entry);
    }
  }

  // ----- what comes back to the client -----

  /** At most one reply for each request, and it is the one this request deserves. */
  lemma AtMostOneTrueReply(steps: seq<Step>, i: nat, j: nat)
    requires i < |Exec(START_STATE, steps).replies| && j < |Exec(START_STATE, steps).replies|
    ensures var g := Exec(START_STATE, steps);
      TrueReply(g.accepted, g.replies[i]) && (g.replies[i].id == g.replies[j].id ==> i == j)
    ensures var r := Exec(START_STATE, steps).replies[i];
      r.cause.Answer? ==> exists k: nat :: HeardFor(steps, k, r)
  {
    hide Exec, TrueReply, HeardFor;
    var g := Exec(START_STATE, steps);
    FaithfulRun(steps);
    if g.replies[i].cause.Answer? {
      var k := AnswerHasOrigin(steps, i);
    }
    if i != j && g.replies[i].id == g.replies[j].id {
      var lo, hi := if i < j then i else j, if i < j then j else i;
      OnePlaceEach(steps, g.replies[i].id);
      TwoRepliesCount(g.replies, lo, hi);
    }
  }

  lemma {:induction false} TwoRepliesCount(replies: seq<Reply>, i: nat, j: nat)
    requires i < j < |replies| && replies[i].id == replies[j].id
    ensures Count(ReplyIds(replies), replies[i].id) >= 2
  {
    var front, last := replies[..|replies| - 1], replies[|replies| - 1];
    assert replies == front + [last];
    ReplyAppend(front, last, replies[i].id);
    if j < |front| {
      TwoRepliesCount(front, i, j);
    } else {
      OneReplyCounts(front, i);
    }
  }

  lemma {:induction false} OneReplyCounts(replies: seq<Reply>, i: nat)
    requires i < |replies|
    ensures Count(ReplyIds(replies), replies[i].id) >= 1
  {
    var front, last := replies[..|replies| - 1], replies[|replies| - 1];
    assert replies == front + [last];
    ReplyAppend(front, last, replies[i].id);
    if i < |front| {
      OneReplyCounts(front, i);
    }
  }

  /** A no-response reply names the address and the function of the request exactly when the request has both;
      a shorter one is answered with bytes of its CRC instead. */
  lemma NoResponseNamesRequest(sock: int, payload: seq<byte>)
    requires |payload| <= 255
    ensures var m := Message(sock, payload);
      && (|payload| >= 2 ==> NoResponseBytes(m[2], m[3]) == [0, 0, 0, 0, 0, 3, payload[0], payload[1] | 0x80, 0x0B])
      && (|payload| == 1 ==> m[2] == payload[0] && m[3] == CheckBytes(payload)[0])
      && (|payload| == 0 ==> m[2..] == CheckBytes(payload))
  {
    hide CheckBytes;
    var m := Message(sock, payload);
    assert m[2..] == payload + CheckBytes(payload);
    assert m[2] == m[2..][0] && m[3] == m[2..][1];
  }

  /** The socket number survives the trip through the queue exactly when it fits in a byte. */
  lemma SocketNumberSurvives(sock: int, payload: seq<byte>)
    ensures ToInt(Message(sock, payload)[0]) == sock <==> 0 <= sock < 256
  {
    hide WithCrc;
    ByteRoundTrip(sock % 256);
    assert ToByte(sock) == ToByte(sock % 256);
    assert Message(sock, payload)[0] == ToByte(sock);
    hide ToInt, ToByte;
  }

  /** A packet whose length fits into the length byte comes back whole, without its CRC;
      a longer one (a read of 253 to 255 bytes) comes back cut, under a wrong length. */
  lemma AnswerIsWholeIff(packet: seq<byte>)
    requires 2 <= |packet| <= 260
    ensures forall i :: 0 <= i < 5 ==> AnswerBytes(packet)[i] == 0
    ensures ToInt(AnswerBytes(packet)[5]) == |AnswerBytes(packet)| - 6
    ensures AnswerBytes(packet)[6..] == packet[..|packet| - 2] <==> |packet| <= 257
  {
    var n := (|packet| - 2) % 256;
    ByteRoundTrip(n);
    hide ToInt, ToByte;
    assert AnswerBytes(packet)[6..] == packet[..n];
    if |packet| > 257 {
      assert |packet[..n]| != |packet[..|packet| - 2]|;
    }
  }

  /** Then only its beginning comes back, 256 bytes short. */
  lemma LongAnswerIsCut(packet: seq<byte>)
    requires 257 < |packet| <= 260
    ensures AnswerBytes(packet)[6..] == packet[..|packet| - 258]
  {
    hide ToInt, ToByte;
    assert AnswerBytes(packet)[6..] == packet[..(|packet| - 2) % 256];
  }

  // ----- the way to the reboot -----

  /** The requests given up since a byte was last heard on the port, over the steps of a run. */
  ghost function GiveUpsSinceByte(steps: seq<Step>): nat {
    if steps == [] then 0
    else
      var before, last := steps[..|steps| - 1], steps[|steps| - 1];
      var g, n := Exec(START_STATE, before), GiveUpsSinceByte(before);
      if g.rebooted then n
      else if last.GiveUp? && g.phase.GaveUp? then n + 1
      else if last.Listen? && g.phase.Waiting? && HeardByte(last.events) then 0
      else n
  }

  lemma SilentAfterOutcome(g: Gateway, e: Entry, events: seq<PortEvent>)
    requires |e.msg| >= 4
    ensures var h := Outcome(g, e, Hear(events));
      && h.silent == (if HeardByte(events) then 0 else g.silent) && h.rebooted == g.rebooted
      && g.replies == h.replies[..|g.replies|] && (!HeardByte(events) ==> h.replies == g.replies)
  {
    hide Passes, AnswerBytes, HearRest;
    HearRestHeard(events);
  }

  lemma HearRestHeard(events: seq<PortEvent>)
    ensures HeardByte(events) <==> !Hear(events).Nothing? && !Hear(events).FirstFailed?
  {
    if HeardByte(events) {
      SomethingHeard(events, [Event(events, 0).b], 3, true);
    }
  }

  lemma {:induction false} SomethingHeard(events: seq<PortEvent>, got: seq<byte>, count: nat, ok: bool)
    requires |got| < 3 ==> count == 3
    requires count <= 260
    ensures !HearRest(events, got, count, ok).Nothing? && !HearRest(events, got, count, ok).FirstFailed?
    decreases 260 - |got|
  {
    hide PacketLength;
    if |got| < count {
      var e := Event(events, |got|);
      if !e.Timeout? && !e.Failure? {
        var got' := got + [e.b];
        SomethingHeard(events, got', if |got'| == 3 then PacketLength(got') else count, e.Byte?);
      }
    }
  }

  ghost predicate LatestSilent(g: Gateway) {
    && g.silent <= |g.replies|
    && forall i :: |g.replies| - g.silent <= i < |g.replies| ==> g.replies[i].cause.Silence?
  }

  lemma NextCountsSilence(g: Gateway, step: Step)
    requires AllSized(g) && LatestSilent(g) && (g.rebooted <==> g.silent > NO_RESPONSE_TRYS)
    ensures var h := Next(g, step);
      && LatestSilent(h) && (h.rebooted <==> h.silent > NO_RESPONSE_TRYS)
      && h.silent ==
         if g.rebooted then g.silent
         else if step.GiveUp? && g.phase.GaveUp? then g.silent + 1
         else if step.Listen? && g.phase.Waiting? && HeardByte(step.events) then 0
         else g.silent
  {
    hide Outcome, HeardByte, Message, NoResponseBytes, Hear;
    if step.Listen? && g.phase.Waiting? {
      SilentAfterOutcome(g, g.phase.entry, step.events);
    }
  }

  /** The reboot comes exactly when more than four requests were given up with no byte heard in between;
      each of them has had a no-response reply, and no other reply came between those. */
  lemma {:induction false} RebootOnlyAfterSilence(steps: seq<Step>)
    ensures var g := Exec(START_STATE, steps);
      && (g.rebooted <==> GiveUpsSinceByte(steps) > 4)
      && g.silent == GiveUpsSinceByte(steps) && LatestSilent(g)
  {
    hide Next, LatestSilent;
    if steps == [] {
      assert LatestSilent(START_STATE) by {
        NothingSilent();
      }
    } else {
      RebootOnlyAfterSilence(steps[..|steps| - 1]);
      NextCountsSilence(Exec(START_STATE, steps[..|steps| - 1]), steps[|steps| - 1]);
    }
  }

  lemma NothingSilent()
    ensures LatestSilent(START_STATE)
  {
  }

  // ----- where the messages come from -----

  ghost predicate Origin(steps: seq<Step>, j: nat, m: seq<byte>) {
    && j < |steps| && steps[j].Accept? && |steps[j].payload| <= 255
    && m == Message(steps[j].sock, steps[j].payload)
  }

  lemma OnlyAcceptsAccept(g: Gateway, step: Step)
    requires AllSized(g)
    ensures var more := Next(g, step).accepted;
      more == g.accepted || (step.Accept? && |step.payload| <= 255
        && more == g.accepted + [Message(step.sock, step.payload)])
  {
    hide Passes, AnswerBytes, NoResponseBytes, Hear, Message;
  }

  /** Every message of a run was made by a client thread from a request it read. */
  lemma {:induction false} AcceptedHasOrigin(steps: seq<Step>, k: nat) returns (j: nat)
    requires k < |Exec(START_STATE, steps).accepted|
    ensures Origin(steps, j, Exec(START_STATE, steps).accepted[k])
  {
    hide Next, Message;
    var before := steps[..|steps| - 1];
    OnlyAcceptsAccept(Exec(START_STATE, before), steps[|steps| - 1]);
    if k < |Exec(START_STATE, before).accepted| {
      j := AcceptedHasOrigin(before, k);
    } else {
      j := |before|;
    }
  }

  /** Each transmission puts a client's request on the line, byte for byte, with a CRC that checks. */
  lemma TransmissionsAreRequests(steps: seq<Step>, i: nat) returns (j: nat)
    requires i < |Exec(START_STATE, steps).sent|
    ensures Exec(START_STATE, steps).sent[i].id < |Exec(START_STATE, steps).accepted|
    ensures Origin(steps, j, Exec(START_STATE, steps).accepted[Exec(START_STATE, steps).sent[i].id])
    ensures |Exec(START_STATE, steps).sent[i].msg| >= 4
    ensures Exec(START_STATE, steps).sent[i].msg[2..] == WithCrc(steps[j].payload)
    ensures Passes(Exec(START_STATE, steps).sent[i].msg[2..])
  {
    hide Exec, Passes, WithCrc;
    FaithfulRun(steps);
    var g := Exec(START_STATE, steps);
    var e := g.sent[i];
    assert CopyOf(g.accepted, e, 2);
    j := AcceptedHasOrigin(steps, e.id);
    assert e.msg[2..] == g.accepted[e.id][2..];
    assert Message(steps[j].sock, steps[j].payload)[2..] == WithCrc(steps[j].payload);
  }

  // ----- where the answers come from -----

  /** Step j listened while the request was waiting for its answer, and heard this packet. */
  ghost predicate HeardFor(steps: seq<Step>, j: nat, r: Reply) {
    && j < |steps| && steps[j].Listen? && r.cause.Answer?
    && Exec(START_STATE, steps[..j]).phase.Waiting? && Exec(START_STATE, steps[..j]).phase.entry.id == r.id
    && Hear(steps[j].events) == Packet(r.cause.packet)
  }

  lemma OnlyListeningAnswers(g: Gateway, step: Step)
    requires AllSized(g)
    ensures var h := Next(g, step);
      || h.replies == g.replies
      || (|h.replies| == |g.replies| + 1 && h.replies[..|g.replies|] == g.replies
          && (h.replies[|g.replies|].cause.Answer? ==>
                && step.Listen? && g.phase.Waiting? && g.phase.entry.id == h.replies[|g.replies|].id
                && Hear(step.events) == Packet(h.replies[|g.replies|].cause.packet)))
  {
    hide Passes, AnswerBytes, NoResponseBytes, Hear, Message;
  }

  /** The packet in an answer is the one that was heard while that very request was waiting. */
  lemma {:induction false} AnswerHasOrigin(steps: seq<Step>, i: nat) returns (j: nat)
    requires i < |Exec(START_STATE, steps).replies| && Exec(START_STATE, steps).replies[i].cause.Answer?
    ensures HeardFor(steps, j, Exec(START_STATE, steps).replies[i])
  {
    hide Next, Hear;
    var before := steps[..|steps| - 1];
    var g, h := Exec(START_STATE, before), Exec(START_STATE, steps);
    OnlyListeningAnswers(g, steps[|steps| - 1]);
    if i < |g.replies| {
      assert h.replies == g.replies || h.replies[..|g.replies|] == g.replies;
      assert h.replies[i] == g.replies[i];
      j := AnswerHasOrigin(before, i);
      assert before[..j] == steps[..j];
    } else {
      j := |before|;
    }
  }
}
