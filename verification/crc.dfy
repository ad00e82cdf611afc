/** The CRC of section 6.2.2 of the MODBUS over Serial Line guide, one bit at a time. */
module StandardCrc {
  import opened Bytes

  const START: word := 0xFFFF

  predicate Odd(r: word) { r & 1 == 1 }

  function Half(r: word): word { r >> 1 }

  function BitStep(r: word): word {
    if Odd(r) then Mix(Half(r), 0xA001) else Half(r)
  }

  function ByteShift(r: word): word {
    BitStep(BitStep(BitStep(BitStep(BitStep(BitStep(BitStep(BitStep(r))))))))
  }

  function Feed(r: word, b: byte): word { ByteShift(Mix(r, b as word)) }

  /** The register after `data`, starting from `r`. */
  function Run(r: word, data: seq<byte>): word {
    if data == [] then r else Feed(Run(r, data[..|data| - 1]), data[|data| - 1])
  }

  function Swap(w: word): word { Word(LoByte(w), HiByte(w)) }

  /** What the programs call the CRC: the register with its two bytes exchanged. */
  function CrcOf(data: seq<byte>): word { Swap(Run(START, data)) }

  function CheckBytes(data: seq<byte>): (two: seq<byte>)
    ensures |two| == 2
  {
    [HiByte(CrcOf(data)), LoByte(CrcOf(data))]
  }

  function WithCrc(data: seq<byte>): seq<byte> { data + CheckBytes(data) }

  /** The acceptance test that every receiver applies to a frame. */
  predicate Passes(frame: seq<byte>) {
    |frame| >= 2 && frame[|frame| - 2..] == CheckBytes(frame[..|frame| - 2])
  }

  lemma MixBits(x: word, y: word)
    ensures Half(Mix(x, y)) == Mix(Half(x), Half(y))
    ensures Odd(Mix(x, y)) <==> Odd(x) != Odd(y)
  {
  }

  lemma StepIsLinear(x: word, y: word)
    ensures BitStep(Mix(x, y)) == Mix(BitStep(x), BitStep(y))
  {
    hide Mix, Half, Odd;
    MixBits(x, y);
    MixTaps(Half(x), Half(y), 0xA001);
  }

  /** The shift register is linear over exclusive or. */
  lemma ShiftIsLinear(x: word, y: word)
    ensures ByteShift(Mix(x, y)) == Mix(ByteShift(x), ByteShift(y))
  {
    hide BitStep, Mix;
    var x1, y1 := BitStep(x), BitStep(y);
    StepIsLinear(x, y);
    var x2, y2 := BitStep(x1), BitStep(y1);
    StepIsLinear(x1, y1);
    var x3, y3 := BitStep(x2), BitStep(y2);
    StepIsLinear(x2, y2);
    var x4, y4 := BitStep(x3), BitStep(y3);
    StepIsLinear(x3, y3);
    var x5, y5 := BitStep(x4), BitStep(y4);
    StepIsLinear(x4, y4);
    var x6, y6 := BitStep(x5), BitStep(y5);
    StepIsLinear(x5, y5);
    var x7, y7 := BitStep(x6), BitStep(y6);
    StepIsLinear(x6, y6);
    StepIsLinear(x7, y7);
  }

  lemma ShiftOfHighByte(b: byte)
    ensures ByteShift(Word(b, 0)) == b as word
  {
  }

  lemma ShiftToZero(x: word)
    ensures ByteShift(x) == 0 <==> x == 0
  {
  }

  lemma ShiftIsInjective(x: word, y: word)
    ensures ByteShift(x) == ByteShift(y) <==> x == y
  {
    hide ByteShift, Mix;
    ShiftIsLinear(x, y);
    ShiftToZero(Mix(x, y));
    MixToZero(x, y);
    MixToZero(ByteShift(x), ByteShift(y));
  }
}

/** The two table-driven loops. */
module TableCrc {
  import opened Bytes
  import opened CrcTables
  import opened StandardCrc

  predicate Agree(hi: byte, lo: byte, k: word) {
    ((lo as word) << 8) | (hi as word) == ByteShift(k)
  }

  lemma EntriesTo1F(k: byte)
    requires k < 0x20
    ensures Agree(CrcHi(k), CrcLo(k), k as word)
  {
  }

  lemma EntriesTo3F(k: byte)
    requires 0x20 <= k < 0x40
    ensures Agree(CrcHi(k), CrcLo(k), k as word)
  {
  }

  lemma EntriesTo5F(k: byte)
    requires 0x40 <= k < 0x60
    ensures Agree(CrcHi(k), CrcLo(k), k as word)
  {
  }

  lemma EntriesTo7F(k: byte)
    requires 0x60 <= k < 0x80
    ensures Agree(CrcHi(k), CrcLo(k), k as word)
  {
  }

  lemma EntriesTo9F(k: byte)
    requires 0x80 <= k < 0xA0
    ensures Agree(CrcHi(k), CrcLo(k), k as word)
  {
  }

  lemma EntriesToBF(k: byte)
    requires 0xA0 <= k < 0xC0
    ensures Agree(CrcHi(k), CrcLo(k), k as word)
  {
  }

  lemma EntriesToDF(k: byte)
    requires 0xC0 <= k < 0xE0
    ensures Agree(CrcHi(k), CrcLo(k), k as word)
  {
  }

  lemma EntriesToFF(k: byte)
    requires 0xE0 <= k
    ensures Agree(CrcHi(k), CrcLo(k), k as word)
  {
  }

  /** Every table entry is the register that eight bit steps leave. */
  lemma TableEntry(k: byte)
    ensures Word(CrcLo(k), CrcHi(k)) == ByteShift(k as word)
  {
    hide CrcHi, CrcLo, ByteShift;
    if k < 0x20 {
      EntriesTo1F(k);
    } else if k < 0x40 {
      EntriesTo3F(k);
    } else if k < 0x60 {
      EntriesTo5F(k);
    } else if k < 0x80 {
      EntriesTo7F(k);
    } else if k < 0xA0 {
      EntriesTo9F(k);
    } else if k < 0xC0 {
      EntriesToBF(k);
    } else if k < 0xE0 {
      EntriesToDF(k);
    } else {
      EntriesToFF(k);
    }
  }

  lemma HighByteFallsThrough(r: word)
    ensures ByteShift(r) == Mix(HiByte(r) as word, ByteShift(LoByte(r) as word))
  {
    hide ByteShift;
    assert r == Mix(Word(HiByte(r), 0), LoByte(r) as word);
    hide Mix, Word, HiByte, LoByte;
    ShiftIsLinear(Word(HiByte(r), 0), LoByte(r) as word);
    ShiftOfHighByte(HiByte(r));
  }

  lemma Absorb(hi: byte, lo: byte, b: byte)
    ensures HiByte(Mix(Word(lo, hi), b as word)) == lo
    ensures LoByte(Mix(Word(lo, hi), b as word)) == Xor(hi, b)
  {
  }

  lemma Assemble(lo: byte, eHi: byte, eLo: byte)
    ensures Word(eLo, Xor(lo, eHi)) == Mix(lo as word, Word(eLo, eHi))
  {
  }

  /** One trip round the table loop feeds one byte to the standard register. */
  lemma TableStep(hi: byte, lo: byte, b: byte)
    ensures Word(CrcLo(Xor(hi, b)), Xor(lo, CrcHi(Xor(hi, b)))) == Feed(Word(lo, hi), b)
  {
    hide CrcHi, CrcLo, ByteShift, Word, Xor, Mix, LoByte, HiByte;
    var index := Xor(hi, b);
    Absorb(hi, lo, b);
    HighByteFallsThrough(Mix(Word(lo, hi), b as word));
    TableEntry(index);
    Assemble(lo, CrcHi(index), CrcLo(index));
  }

  lemma SwapWord(hi: byte, lo: byte)
    ensures Word(hi, lo) == Swap(Word(lo, hi))
  {
  }

  lemma StartWord()
    ensures Word(0xFF, 0xFF) == START
  {
  }

  method CRC(buffer: array<byte>, start: nat, size: nat) returns (crc: word)
    requires start + size <= buffer.Length
    ensures crc == CrcOf(buffer[start..start + size])
  {
    hide CrcHi, CrcLo, Feed, Xor, Word, Swap;
    var highCRC: byte := 0xFF;
    var lowCRC: byte := 0xFF;
    var p, left := start, size;
    StartWord();
    while left > 0
      invariant start <= p <= start + size && left == start + size - p
      invariant Word(lowCRC, highCRC) == Run(START, buffer[start..p])
    {
      assert buffer[start..p + 1][..p - start] == buffer[start..p];
      TableStep(highCRC, lowCRC, buffer[p]);
      var index := Xor(highCRC, buffer[p]);
      highCRC := Xor(lowCRC, CrcHi(index));
      lowCRC := CrcLo(index);
      p := p + 1;
      left := left - 1;
    }
    SwapWord(highCRC, lowCRC);
    crc := Word(highCRC, lowCRC);
  }

  /** The copy of the loop in program_settings, which answers 0 for an empty buffer. */
  method VectorCrc(buffer: seq<byte>) returns (crc: word)
    ensures crc == if buffer == [] then 0 else CrcOf(buffer)
  {
    hide CrcHi, CrcLo, Feed, Xor, Word, Swap;
    var highCRC: byte := 0xFF;
    var lowCRC: byte := 0xFF;
    StartWord();
    if buffer == [] {
      return 0;
    }
    var iter := 0;
    while iter != |buffer|
      invariant 0 <= iter <= |buffer|
      invariant Word(lowCRC, highCRC) == Run(START, buffer[..iter])
      decreases |buffer| - iter
    {
      assert buffer[..iter + 1][..iter] == buffer[..iter];
      TableStep(highCRC, lowCRC, buffer[iter]);
      var index := Xor(highCRC, buffer[iter]);
      highCRC := Xor(lowCRC, CrcHi(index));
      lowCRC := CrcLo(index);
      iter := iter + 1;
    }
    assert buffer[..iter] == buffer;
    SwapWord(highCRC, lowCRC);
    crc := Word(highCRC, lowCRC);
  }
}
