/** What the receivers make of a frame that was damaged on the way. */
module Corruption {
  import opened Bytes
  import opened StandardCrc
  import opened CrcTheory
  import opened StreamSocket
  import opened Framing
  import EmulatorServer
  import DeviceThread
  import ComPortModel
  import opened GatewayModel
  import opened GatewayRoundTrip

  /** Damage the CRC always shows: a burst of up to sixteen bits, two adjacent bytes, or an odd number of bits. */
  ghost predicate Damaged(f: seq<byte>, g: seq<byte>) {
    && f != g && |f| == |g|
    && ((exists at: nat, k: nat :: Burst(f, g, at, k))
        || (exists at: nat :: Adjacent(f, g, at))
        || OddBits(f) != OddBits(g))
  }

  lemma DamageShows(f: seq<byte>, g: seq<byte>)
    requires Passes(f) && Damaged(f, g)
    ensures !Passes(g)
  {
    hide Passes, Burst, Adjacent, OddBits;
    if at: nat, k: nat :| Burst(f, g, at, k) {
      ShortBurstIsCaught(f, g, at, k);
    } else if at: nat :| Adjacent(f, g, at) {
      AdjacentBytesAreCaught(f, g, at);
    } else if Passes(g) {
      AcceptedFramesAreEven(f);
      AcceptedFramesAreEven(g);
    }
  }

  // ----- the serial port emulator -----

  /** The worker of the serial port emulator rejects every damaged request. */
  lemma PortEmulatorRejects(f: seq<byte>, g: seq<byte>)
    requires ComPortModel.Acceptable(f) && Damaged(f, g)
    ensures !ComPortModel.Acceptable(g)
  {
    hide Passes, Damaged, Supported, Needed;
    DamageShows(f, g);
  }

  // ----- the readers of streams -----

  /** However a damaged frame arrives, and whatever fails on the way, it is not read as a frame. What may be read
      instead, if the damage makes it shorter, is a true beginning of it with a CRC of its own that checks. */
  lemma ReaderRejects(side: Side, f: seq<byte>, g: seq<byte>, s: Segments)
    requires Passes(f) && Damaged(f, g) && Flat(s) == g
    ensures Read(side, s).Frame? ==>
      var x := Read(side, s).bytes;
      |x| < |g| && x == g[..|x|] && Passes(x) && |x| >= Needed(side, x)
  {
    hide Passes, Damaged, Read, Flat, Needed, Supported, Unread;
    DamageShows(f, g);
    ReadConsumes(side, s);
    if Read(side, s).Frame? {
      var x := Read(side, s).bytes;
      var rest := Flat(Unread(side, s));
      assert x == (x + rest)[..|x|];
      assert g[..|g|] == g;
    }
  }

  /** A damaged frame that still announces its own length is never read as a frame. */
  lemma ReaderRejectsSameLength(side: Side, f: seq<byte>, g: seq<byte>, s: Segments)
    requires Passes(f) && Damaged(f, g) && Flat(s) == g && WellFormed(side, g)
    ensures !Read(side, s).Frame?
  {
    hide Passes, Damaged, Flat, Needed, WellFormed, Read;
    ReaderRejects(side, f, g, s);
    if Read(side, s).Frame? {
      PrefixNeeds(side, g, |Read(side, s).bytes|);
    }
  }

  lemma LongEnough(side: Side, g: seq<byte>)
    requires WellFormed(side, g)
    ensures |g| >= 5
  {
  }

  /** What the beginning up to the announced length comes to, when a delivery ends there: it is read as a frame exactly
      when the damage has made it shorter than the frame was, its own CRC checks, and no receive fails within it. */
  lemma ReaderOnDamage(side: Side, f: seq<byte>, g: seq<byte>, s: Segments)
    requires Passes(f) && Damaged(f, g) && Flat(s) == g
    requires Needed(side, g) <= |g| && WellFormed(side, g[..Needed(side, g)]) && Cut(s, Needed(side, g))
    ensures Read(side, s).Frame? <==>
      Needed(side, g) < |g| && Passes(g[..Needed(side, g)]) && Unbroken(s, Needed(side, g))
    ensures Read(side, s).Frame? ==> Read(side, s).bytes == g[..Needed(side, g)]
  {
    hide Passes, Damaged, Flat, Needed, WellFormed, Collect, Cut, AfterCut, Unbroken, Supported;
    DamageShows(f, g);
    var y := g[..Needed(side, g)];
    LongEnough(side, y);
    assert y[0..] == y && Flat(s)[..|y|] == y;
    CollectFrame(side, y, [], s);
    var c := Collect(side, [], s);
    assert c.complete ==> c.frame == y;
    KnownFunction(side, y);
    if |y| == |g| {
      assert y == g;
    }
  }

  lemma KnownFunction(side: Side, y: seq<byte>)
    requires WellFormed(side, y)
    ensures |y| >= 2 && (side == Requests ==> Supported(y[1]))
  {
  }

  /** One delivery that fits into the buffer is taken whole by the first receive. */
  lemma WholeDelivery(side: Side, g: seq<byte>)
    requires 0 < |g| <= 300
    ensures Collect(side, [], [g]) == Collected(|g| >= Needed(side, []) && |g| >= Needed(side, g), g, [])
  {
    var need := Needed(side, []);
    assert need <= 3;
    hide Needed;
    assert [g][1..] == [] && RawRecv([g], RECV_BUFFER) == Delivery(g, []);
    assert [] + g == g && g + [] == g;
    assert forall asked, size :: asked <= size ==> Gather([], g, asked, size) == Delivery(g, []) by {
      NothingMore(g);
    }
    assert Gather([g], [], need, RECV_BUFFER) == Delivery(g, []);
    if |g| >= need && |g| < Needed(side, g) {
      var more := Needed(side, g) - |g|;
      assert Gather([], [], more, RECV_BUFFER) == Delivery([], []);
      assert Collect(side, g, []) == Collected(false, g, []);
    }
  }

  lemma NothingMore(g: seq<byte>)
    ensures forall asked: nat, size: nat :: asked <= size ==> Gather([], g, asked, size) == Delivery(g, [])
  {
  }

  /** A damaged frame that arrives in one delivery is never read as a frame, even if its length is damaged,
      and nothing of it is left over. */
  lemma DeliveryRejects(side: Side, f: seq<byte>, g: seq<byte>)
    requires Passes(f) && Damaged(f, g) && |g| <= RECV_BUFFER
    ensures !Read(side, [g]).Frame? && Unread(side, [g]) == []
  {
    hide Passes, Damaged, Needed, Collect;
    DamageShows(f, g);
    assert |g| >= 2 by {
      PassingIsLong(f);
      DamageKeepsLength(f, g);
    }
    WholeDelivery(side, g);
  }

  lemma PassingIsLong(f: seq<byte>)
    requires Passes(f)
    ensures |f| >= 2
  {
  }

  lemma DamageKeepsLength(f: seq<byte>, g: seq<byte>)
    requires Damaged(f, g)
    ensures |f| == |g|
  {
  }

  /** So the device thread publishes nothing of it and the server does not serve it. */
  lemma {:induction false} NothingIsPublished(p: DeviceThread.Polling, f: seq<byte>, g: seq<byte>,
                                              failures: nat, pass: nat, attempts: nat)
    requires Passes(f) && Damaged(f, g) && |g| <= RECV_BUFFER
    ensures DeviceThread.Poll(p, [g], failures, pass, attempts).published == []
    decreases DeviceThread.RECONNECTS_TO_DEVICE_COUNT - failures
  {
    hide Passes, Damaged, Read, Unread, DeviceThread.Poll, DeviceThread.Sends, DeviceThread.AttemptsAfter;
    DeliveryRejects(Answers, f, g);
    var a := DeviceThread.AttemptsAfter(p, pass, attempts);
    if failures >= DeviceThread.RECONNECTS_TO_DEVICE_COUNT {
      DeviceThread.PollStopped(p, [g], failures, pass, attempts);
    } else if DeviceThread.Sends(p, pass, attempts) {
      DeviceThread.PollStep(p, [g], failures, pass, attempts);
      NothingFromNothing(p, failures + 1, pass + 1, a);
    } else {
      DeviceThread.PollSkips(p, [g], failures, pass, attempts);
      NothingIsPublished(p, f, g, failures + 1, pass + 1, a);
    }
  }

  lemma NothingFromNothing(p: DeviceThread.Polling, failures: nat, pass: nat, attempts: nat)
    ensures DeviceThread.Poll(p, [], failures, pass, attempts).published == []
  {
    hide DeviceThread.Poll, Needed;
    DeviceThread.PublishesOnlyAccepted(p, [], failures, pass, attempts);
    var published := DeviceThread.Poll(p, [], failures, pass, attempts).published;
    assert Flat([]) == [];
    if published != [] {
      assert published[0] in published;
      PassingIsLong(published[0]);
    }
  }

  lemma NothingIsServed(env: EmulatorServer.Environment, f: seq<byte>, g: seq<byte>, failures: nat, attempts: nat)
    requires Passes(f) && Damaged(f, g) && |g| <= RECV_BUFFER
    ensures EmulatorServer.Serve(env, [g], failures, attempts).requests == []
  {
    hide Passes, Damaged, Read, Unread,
         EmulatorServer.Serve, EmulatorServer.FailuresAfter, EmulatorServer.AttemptsAfter;
    DeliveryRejects(Requests, f, g);
    EmulatorServer.ServeStep(env, [g], failures, attempts);
    if failures < EmulatorServer.SOCKET_FAILURES_COUNT {
      ReadConsumes(Requests, [g]);
      var r := Read(Requests, [g]);
      NoRequestFromNothing(env, EmulatorServer.FailuresAfter(env, r, failures, attempts),
                           EmulatorServer.AttemptsAfter(env, r, attempts));
    }
  }

  lemma NoRequestFromNothing(env: EmulatorServer.Environment, failures: nat, attempts: nat)
    ensures EmulatorServer.Serve(env, [], failures, attempts).requests == []
  {
    hide EmulatorServer.Serve, Needed, Supported;
    EmulatorServer.ServeOnlyAccepted(env, [], failures, attempts);
    var requests := EmulatorServer.Serve(env, [], failures, attempts).requests;
    assert Flat([]) == [];
    if requests != [] {
      PassingIsLong(requests[0]);
    }
  }

  // ----- the receiver of the gateway -----

  /** What the gateway does with the damaged answer to a waiting request. With the announced length as it was the
      request is dropped; announced longer, the request is repeated; announced shorter, the beginning of
      the packet counts as the answer exactly when its own CRC checks. */
  lemma ReceiverOnDamage(w: Gateway, f: seq<byte>, g: seq<byte>)
    requires AllSized(w) && w.phase.Waiting? && !w.rebooted
    requires WholePacket(f) && Passes(f) && Damaged(f, g)
    ensures |g| >= 3 && Sized(w.phase.entry)
    ensures var e, n, h := w.phase.entry, PacketLength(g[..3]), Next(w, Listen(Arriving(g)));
      if n > |g| then h == Requeue(w.(silent := 0), e)
      else if n < |g| && Passes(g[..n]) then
        h == w.(phase := Idle, silent := 0,
                replies := w.replies + [Reply(e.id, e.msg[0], AnswerBytes(g[..n]), Answer(g[..n]))])
      else h == w.(phase := Idle, silent := 0, dropped := w.dropped + [e.id])
    ensures PacketLength(g[..3]) == PacketLength(f[..3]) ==>
      Next(w, Listen(Arriving(g))) == w.(phase := Idle, silent := 0, dropped := w.dropped + [w.phase.entry.id])
  {
    hide Passes, Damaged, PacketLength, Hear, AnswerBytes, Requeue;
    DamageShows(f, g);
    DamageKeepsLength(f, g);
    ArrivingIsHeard(g);
    var n := PacketLength(g[..3]);
    if n == |g| {
      assert g[..n] == g;
    }
  }

  // ----- damage that makes a packet shorter -----

  /** An answer of device `a` whose data look like the CRC of an error answer. */
  function Treacherous(a: byte): seq<byte> {
    WithCrc([a, 3, 2] + CheckBytes([a, 0x83, 2]))
  }

  /** One flipped bit in the function byte turns it into an error answer that checks, with two bytes left over. */
  lemma OneBitMakesAnError(a: byte)
    ensures var f := Treacherous(a);
      var g := f[1 := 0x83];
      && |f| == 7 && Passes(f) && WholePacket(f) && WellFormed(Answers, f) && Damaged(f, g)
      && PacketLength(g[..3]) == Needed(Answers, g) == 5 && g[..5] == WithCrc([a, 0x83, 2]) && Passes(g[..5])
      && WellFormed(Answers, g[..5])
  {
    hide Passes, CheckBytes;
    var f := Treacherous(a);
    var g := f[1 := 0x83];
    WithCrcPasses([a, 3, 2] + CheckBytes([a, 0x83, 2]));
    WithCrcPasses([a, 0x83, 2]);
    assert f[1] == 3 && f[2] == 2;
    assert f[..3] == [a, 3, 2] && f[3..5] == CheckBytes([a, 0x83, 2]);
    assert g[..5] == [a, 0x83, 2] + f[3..5];
    assert Adjacent(f, g, 1);
    assert f[1] != g[1];
  }

  /** So neither the gateway nor the device thread rejects every damaged frame: the gateway passes the error answer on,
      and the thread reads it if a delivery ends behind it. */
  lemma DamageMayBeAccepted(w: Gateway, a: byte)
    requires AllSized(w) && w.phase.Waiting? && !w.rebooted
    ensures var e, f := w.phase.entry, Treacherous(a);
      var g := f[1 := 0x83];
      && |f| == 7 && Passes(f) && Damaged(f, g) && Sized(e)
      && Next(w, Listen(Arriving(g))).replies
           == w.replies + [Reply(e.id, e.msg[0], AnswerBytes(g[..5]), Answer(g[..5]))]
      && Read(Answers, [g[..5], g[5..]]) == Frame(g[..5])
  {
    hide Passes, Damaged, PacketLength, AnswerBytes, Treacherous, WellFormed, Needed, Hear, Requeue, Read, WholePacket;
    OneBitMakesAnError(a);
    var f := Treacherous(a);
    var g := f[1 := 0x83];
    ReceiverOnDamage(w, f, g);
    var s := [g[..5], g[5..]];
    assert s[1..] == [g[5..]] && [g[5..]][1..] == [] && Flat([]) == [];
    assert Flat([g[5..]]) == g[5..];
    assert Flat(s) == g;
    assert Cut(s[1..], 0);
    assert Flat(s)[..5] == g[..5];
    ReadRecoversIff(Answers, g[..5], s);
  }
}
