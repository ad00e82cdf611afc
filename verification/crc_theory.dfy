/** What the CRC check can and cannot see, for frames of any length. */
module CrcTheory {
  import opened Bytes
  import opened StandardCrc

  // ----- the register as a function of the data -----

  lemma {:induction false} RunAppend(r: word, a: seq<byte>, b: seq<byte>)
    ensures Run(r, a + b) == Run(Run(r, a), b)
    decreases |b|
  {
    hide Feed;
    if b == [] {
      assert a + b == a;
    } else {
      var front := b[..|b| - 1];
      RunAppend(r, a, front);
      assert (a + b)[..|a + b| - 1] == a + front;
    }
  }

  lemma RunOne(r: word, b: byte)
    ensures Run(r, [b]) == Feed(r, b)
  {
    hide Feed;
    assert [b][..0] == [];
    assert Run(r, []) == r;
  }

  lemma MixIsInjective(x: word, y: word, z: word)
    requires Mix(x, z) == Mix(y, z)
    ensures x == y
  {
    assert x == Mix(x, z) ^ z && y == Mix(y, z) ^ z;
  }

  lemma FeedIsInjective(r: word, s: word, b: byte)
    requires Feed(r, b) == Feed(s, b)
    ensures r == s
  {
    hide ByteShift, Mix;
    ShiftIsInjective(Mix(r, b as word), Mix(s, b as word));
    MixIsInjective(r, s, b as word);
  }

  /** Equal tails keep different registers different. */
  lemma {:induction false} RunIsInjective(r: word, s: word, data: seq<byte>)
    ensures Run(r, data) == Run(s, data) <==> r == s
    decreases |data|
  {
    hide Feed;
    if data != [] {
      var front, last := data[..|data| - 1], data[|data| - 1];
      RunIsInjective(r, s, front);
      if Run(r, data) == Run(s, data) {
        FeedIsInjective(Run(r, front), Run(s, front), last);
      }
    }
  }

  // ----- the check bytes bring the register to zero -----

  /** A shifted register has an empty high byte only if its low byte was empty. */
  lemma ShiftToByte(x: word, b: byte)
    ensures ByteShift(x) == b as word <==> x == Word(b, 0)
  {
    hide ByteShift;
    ShiftOfHighByte(b);
    ShiftIsInjective(x, Word(b, 0));
  }

  lemma MixToByte(r: word, a: byte, b: byte)
    ensures Mix(r, a as word) == Word(b, 0) <==> a == HiByte(Swap(r)) && b == LoByte(Swap(r))
  {
  }

  lemma TwoBytesToZero(r: word, a: byte, b: byte)
    ensures Feed(Feed(r, a), b) == 0 <==> a == HiByte(Swap(r)) && b == LoByte(Swap(r))
  {
    hide ByteShift, Mix, Word, HiByte, LoByte, Swap;
    var y := Feed(r, a);
    ShiftToZero(Mix(y, b as word));
    MixToZero(y, b as word);
    ShiftToByte(Mix(r, a as word), b);
    MixToByte(r, a, b);
  }

  lemma RunTwo(r: word, a: byte, b: byte)
    ensures Run(r, [a, b]) == Feed(Feed(r, a), b)
  {
    hide Feed;
    assert [a, b][..1] == [a];
    RunOne(r, a);
  }

  lemma CheckBytesAre(data: seq<byte>)
    ensures CheckBytes(data) == [HiByte(Swap(Run(START, data))), LoByte(Swap(Run(START, data)))]
  {
    hide Run, HiByte, LoByte, Swap;
  }

  /** A frame passes exactly when the register over the whole frame ends at zero. */
  lemma PassesIffZero(frame: seq<byte>)
    requires |frame| >= 2
    ensures Passes(frame) <==> Run(START, frame) == 0
  {
    hide Run, Feed, HiByte, LoByte, Swap, CheckBytes;
    var n := |frame| - 2;
    var body, a, b := frame[..n], frame[n], frame[n + 1];
    assert frame == body + [a, b] && frame[n..] == [a, b];
    RunAppend(START, body, [a, b]);
    RunTwo(Run(START, body), a, b);
    TwoBytesToZero(Run(START, body), a, b);
    CheckBytesAre(body);
  }

  lemma WithCrcPasses(data: seq<byte>)
    ensures Passes(WithCrc(data))
  {
    hide CrcOf, HiByte, LoByte;
    assert WithCrc(data)[..|data|] == data;
  }

  // ----- two frames on one buffer -----

  /** What follows an accepted frame decides alone whether the longer buffer passes. */
  lemma PassesWithTail(frame: seq<byte>, tail: seq<byte>)
    requires Passes(frame)
    ensures Passes(frame + tail) <==> Run(0, tail) == 0
  {
    hide Feed, CheckBytes;
    PassesIffZero(frame);
    PassesIffZero(frame + tail);
    RunAppend(START, frame, tail);
  }

  /** Two accepted frames run together are never accepted as one. */
  lemma CoalescedFramesFail(first: seq<byte>, second: seq<byte>)
    requires Passes(first) && Passes(second)
    ensures !Passes(first + second)
  {
    hide Feed, CheckBytes;
    PassesWithTail(first, second);
    PassesIffZero(second);
    RunIsInjective(0, START, second);
  }

  lemma {:induction false} ZeroTail(tail: seq<byte>)
    requires forall i :: 0 <= i < |tail| ==> tail[i] == 0
    ensures Run(0, tail) == 0
  {
    if tail != [] {
      ZeroTail(tail[..|tail| - 1]);
      ShiftToZero(0);
    }
  }

  /** Zero bytes behind an accepted frame go unnoticed, however many there are. */
  lemma ZeroPaddingPasses(frame: seq<byte>, zeros: seq<byte>)
    requires Passes(frame) && forall i :: 0 <= i < |zeros| ==> zeros[i] == 0
    ensures Passes(frame + zeros)
  {
    hide Passes, Run;
    ZeroTail(zeros);
    PassesWithTail(frame, zeros);
  }

  // ----- which corruptions are caught -----

  lemma WidenXor(a: byte, b: byte)
    ensures Xor(a, b) as word == Mix(a as word, b as word)
  {
  }

  /** Two runs that take different bytes differ by what the difference alone would leave. */
  lemma FeedIsLinear(r: word, s: word, a: byte, b: byte)
    ensures Mix(Feed(r, a), Feed(s, b)) == Feed(Mix(r, s), Xor(a, b))
  {
    hide ByteShift, Mix, Xor;
    var x, y := a as word, b as word;
    WidenXor(a, b);
    ShiftIsLinear(Mix(r, x), Mix(s, y));
    MixAssociates(r, x, Mix(s, y));
    MixTaps(x, y, s);
    MixCommutes(s, y);
    MixCommutes(Mix(x, y), s);
    MixAssociates(r, s, Mix(x, y));
  }

  function LowBits(k: nat): byte
    requires k <= 8
  {
    if k == 0 then 0x00 else if k == 1 then 0x01 else if k == 2 then 0x03 else if k == 3 then 0x07
    else if k == 4 then 0x0F else if k == 5 then 0x1F else if k == 6 then 0x3F else if k == 7 then 0x7F else 0xFF
  }

  /** The bytes differ only above bit k, or only below it; bit 0 is sent first. */
  predicate SameBelow(a: byte, b: byte, k: nat)
    requires k <= 8
  {
    Xor(a, b) & LowBits(k) == 0
  }

  predicate SameFrom(a: byte, b: byte, k: nat)
    requires k <= 8
  {
    Xor(a, b) & LowBits(k) == Xor(a, b)
  }

  /** No byte leaves a third byte inside the 16-bit window it opened. */
  lemma WindowIsTight(e0: byte, e2: byte, k: nat)
    requires k <= 8 && e0 & LowBits(k) == 0 && e2 & LowBits(k) == e2
    requires HiByte(ByteShift(e0 as word)) == e2
    ensures e0 == 0
  {
  }

  lemma XorToZero(a: byte, b: byte)
    ensures Xor(a, b) == 0 <==> a == b
  {
  }

  lemma SwapBytes(y: word)
    ensures HiByte(Swap(y)) == LoByte(y) && LoByte(Swap(y)) == HiByte(y)
  {
  }

  /** Three bytes that differ only inside a 16-bit window leave different registers. */
  lemma WindowIsInjective(r: word, a0: byte, a1: byte, a2: byte, b0: byte, b1: byte, b2: byte, k: nat)
    requires k <= 8 && SameBelow(a0, b0, k) && SameFrom(a2, b2, k)
    requires Feed(Feed(Feed(r, a0), a1), a2) == Feed(Feed(Feed(r, b0), b1), b2)
    ensures a0 == b0 && a1 == b1 && a2 == b2
  {
    hide ByteShift, Mix, Xor, Feed, HiByte, LoByte, Swap, LowBits;
    var e0, e1, e2 := Xor(a0, b0), Xor(a1, b1), Xor(a2, b2);
    var ra, rb := Feed(r, a0), Feed(r, b0);
    FeedIsLinear(r, r, a0, b0);
    FeedIsLinear(ra, rb, a1, b1);
    FeedIsLinear(Feed(ra, a1), Feed(rb, b1), a2, b2);
    MixUnits(r);
    MixUnits(Feed(Feed(ra, a1), a2));
    var y := Feed(0, e0);
    assert Feed(Feed(y, e1), e2) == 0;
    TwoBytesToZero(y, e1, e2);
    SwapBytes(y);
    FeedFromZero(e0);
    WindowIsTight(e0, e2, k);
    FeedFromZero(0);
    ShiftToZero(0);
    XorToZero(a0, b0);
    XorToZero(a1, b1);
    XorToZero(a2, b2);
    ZeroBytes();
  }

  lemma FeedFromZero(b: byte)
    ensures Feed(0, b) == ByteShift(b as word)
  {
    hide ByteShift;
  }

  lemma ZeroBytes()
    ensures HiByte(0) == 0 && LoByte(0) == 0
  {
  }

  /** The frames differ inside 16 consecutive bits at most, bit 0 of each byte being sent first. */
  predicate Burst(f: seq<byte>, g: seq<byte>, at: nat, k: nat) {
    && |f| == |g| && at + 2 < |f| && k <= 8
    && f[..at] == g[..at] && f[at + 3..] == g[at + 3..]
    && SameBelow(f[at], g[at], k) && SameFrom(f[at + 2], g[at + 2], k)
  }

  lemma RunThree(r: word, a: byte, b: byte, c: byte)
    ensures Run(r, [a, b, c]) == Feed(Feed(Feed(r, a), b), c)
  {
    hide Feed;
    assert [a, b, c] == [a, b] + [c];
    RunAppend(r, [a, b], [c]);
    RunTwo(r, a, b);
    RunOne(Run(r, [a, b]), c);
  }

  /** No burst of up to sixteen bits turns an accepted frame into another accepted frame. */
  lemma ShortBurstIsCaught(f: seq<byte>, g: seq<byte>, at: nat, k: nat)
    requires Burst(f, g, at, k) && f != g
    requires Passes(f)
    ensures !Passes(g)
  {
    hide Feed, Run, SameBelow, SameFrom, CheckBytes;
    var head, tail := f[..at], f[at + 3..];
    var r := Run(START, head);
    var fm, gm := [f[at], f[at + 1], f[at + 2]], [g[at], g[at + 1], g[at + 2]];
    assert f == head + (fm + tail) && g == head + (gm + tail);
    RunAppend(START, head, fm + tail);
    RunAppend(START, head, gm + tail);
    RunAppend(r, fm, tail);
    RunAppend(r, gm, tail);
    PassesIffZero(f);
    PassesIffZero(g);
    if Passes(g) {
      RunIsInjective(Run(r, fm), Run(r, gm), tail);
      RunThree(r, f[at], f[at + 1], f[at + 2]);
      RunThree(r, g[at], g[at + 1], g[at + 2]);
      WindowIsInjective(r, f[at], f[at + 1], f[at + 2], g[at], g[at + 1], g[at + 2], k);
    }
  }

  lemma FullMask(b: byte, z: byte)
    ensures b & LowBits(8) == b && b & LowBits(0) == 0 && Xor(z, z) == 0 && Xor(z, z) & LowBits(8) == 0
  {
  }

  lemma Windows(a: byte, b: byte)
    ensures SameBelow(a, b, 0) && SameFrom(a, b, 8) && SameFrom(a, a, 0) && SameBelow(a, a, 8)
  {
    hide LowBits, Xor;
    FullMask(Xor(a, b), a);
    FullMask(Xor(a, a), a);
  }

  ghost predicate Adjacent(f: seq<byte>, g: seq<byte>, at: nat) {
    |f| == |g| && at + 1 < |f| && forall i :: 0 <= i < |f| && i != at && i != at + 1 ==> f[i] == g[i]
  }

  lemma OneShortFrame(f: seq<byte>)
    requires |f| == 2
    ensures Passes(f) <==> f == CheckBytes([])
  {
    hide CheckBytes;
    assert f[..0] == [] && f[0..] == f;
  }

  /** In particular two adjacent bytes, wherever they are in the frame. */
  lemma AdjacentBytesAreCaught(f: seq<byte>, g: seq<byte>, at: nat)
    requires Adjacent(f, g, at) && f != g
    requires Passes(f)
    ensures !Passes(g)
  {
    hide Passes, SameBelow, SameFrom;
    if |f| == 2 {
      OneShortFrame(f);
      OneShortFrame(g);
    } else if at + 2 < |f| {
      Windows(f[at], g[at]);
      Windows(f[at + 2], g[at + 2]);
      ShortBurstIsCaught(f, g, at, 0);
    } else {
      Windows(f[at - 1], g[at - 1]);
      Windows(f[at + 1], g[at + 1]);
      ShortBurstIsCaught(f, g, at - 1, 8);
    }
  }

  // ----- parity -----

  /** Is the number of ones among the lowest n bits odd? */
  predicate OddLow(r: word, n: nat)
    decreases n
  {
    n > 0 && (Odd(r) != OddLow(Half(r), n - 1))
  }

  predicate OddWord(r: word) { OddLow(r, 16) }

  /** An odd number of ones in the whole frame. */
  predicate OddBits(data: seq<byte>) {
    data != [] && OddBits(data[..|data| - 1]) != OddWord(data[|data| - 1] as word)
  }

  lemma {:induction false} MixParity(x: word, y: word, n: nat)
    ensures OddLow(Mix(x, y), n) == (OddLow(x, n) != OddLow(y, n))
    decreases n
  {
    hide Mix, Half, Odd;
    if n > 0 {
      MixBits(x, y);
      MixParity(Half(x), Half(y), n - 1);
    }
  }

  function Halves(r: word, n: nat): word
    decreases n
  {
    if n == 0 then r else Halves(Half(r), n - 1)
  }

  lemma {:induction false} OneMoreBit(r: word, n: nat)
    ensures OddLow(r, n + 1) == (OddLow(r, n) != Odd(Halves(r, n)))
    decreases n
  {
    hide Half, Odd;
    if n > 0 {
      OneMoreBit(Half(r), n - 1);
    }
  }

  lemma FourHalves(r: word, n: nat)
    ensures Halves(r, n + 4) == Halves(r >> 4, n)
  {
    assert r >> 4 == Half(Half(Half(Half(r))));
    hide Half;
    assert Halves(r, n + 4) == Halves(Half(Half(r)), n + 2);
  }

  lemma SixteenHalves(r: word)
    ensures !Odd(Halves(r, 16))
  {
    FourHalves(r, 12);
    FourHalves(r >> 4, 8);
    FourHalves((r >> 4) >> 4, 4);
    FourHalves(((r >> 4) >> 4) >> 4, 0);
  }

  lemma KnownParities()
    ensures OddWord(0xA001) && !OddWord(START) && !OddWord(0)
  {
    assert !OddLow(0x000F, 4);
    assert !OddLow(0x00FF, 8);
    assert !OddLow(0x0FFF, 12);
    assert !OddLow(0x000A, 4);
    assert !OddLow(0x00A0, 8);
    assert !OddLow(0x0A00, 12);
    MixUnits(0);
    MixParity(0, 0, 16);
  }

  /** Dropping a one and mixing in the three taps leaves the parity as it was. */
  lemma StepKeepsParity(r: word)
    ensures OddWord(BitStep(r)) == OddWord(r)
  {
    hide Half, Odd, Mix;
    OneMoreBit(r, 16);
    SixteenHalves(r);
    KnownParities();
    MixParity(Half(r), 0xA001, 16);
  }

  lemma ShiftKeepsParity(r: word)
    ensures OddWord(ByteShift(r)) == OddWord(r)
  {
    hide BitStep, OddWord;
    var r1 := BitStep(r);
    var r2 := BitStep(r1);
    var r3 := BitStep(r2);
    var r4 := BitStep(r3);
    var r5 := BitStep(r4);
    var r6 := BitStep(r5);
    var r7 := BitStep(r6);
    StepKeepsParity(r);
    StepKeepsParity(r1);
    StepKeepsParity(r2);
    StepKeepsParity(r3);
    StepKeepsParity(r4);
    StepKeepsParity(r5);
    StepKeepsParity(r6);
    StepKeepsParity(r7);
  }

  lemma FeedParity(r: word, b: byte)
    ensures OddWord(Feed(r, b)) == (OddWord(r) != OddWord(b as word))
  {
    hide ByteShift, Mix, OddLow;
    MixParity(r, b as word, 16);
    ShiftKeepsParity(Mix(r, b as word));
  }

  lemma {:induction false} RunParity(r: word, data: seq<byte>)
    ensures OddWord(Run(r, data)) == (OddWord(r) != OddBits(data))
    decreases |data|
  {
    hide Feed, OddWord;
    if data != [] {
      RunParity(r, data[..|data| - 1]);
      FeedParity(Run(r, data[..|data| - 1]), data[|data| - 1]);
    }
  }

  /** Every accepted frame has an even number of ones, so flipping an odd number of bits is caught. */
  lemma AcceptedFramesAreEven(frame: seq<byte>)
    requires Passes(frame)
    ensures !OddBits(frame)
  {
    hide Run, OddWord, CheckBytes;
    PassesIffZero(frame);
    RunParity(START, frame);
    KnownParities();
  }

  /** A frame known from the Modbus documents: 02 07 is completed by 41 12. */
  lemma KnownFrame()
    ensures WithCrc([2, 7]) == [2, 7, 0x41, 0x12]
  {
    assert Feed(START, 2) == 0x813E;
    assert Feed(0x813E, 7) == 0x1241;
    assert Run(START, [2, 7]) == 0x1241 by {
      hide Feed;
      assert [2, 7][..1] == [2] && [2][..0] == [];
    }
  }
}
