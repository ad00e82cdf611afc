/** Captured answers: from the hexadecimal words of a log to a response file, and back to the wire. */
module Capture {
  import opened Bytes
  import opened Collections
  import opened HexText

  const FIRST_REGISTER := 3001

  datatype Register = Register(number: nat, high: string, low: string)

  datatype Block = Block(device: int, function_code: nat, byte_count: nat, registers: seq<Register>)

  predicate AllTokens(words: seq<string>) {
    forall i :: 0 <= i < |words| ==> IsToken(words[i])
  }

  /** The words behind the header that the byte count covers. */
  function DataWords(words: seq<string>, byte_count: nat): (data: seq<string>)
    requires |words| >= 3
    ensures AllTokens(words) ==> AllTokens(data)
  {
    words[3..if 3 + byte_count < |words| then 3 + byte_count else |words|]
  }

  /** Two words each; an odd one at the end is left out. */
  function Registers(data: seq<string>): seq<Register> {
    seq(|data| / 2, k requires 0 <= k < |data| / 2 => Register(FIRST_REGISTER + k, data[2 * k], data[2 * k + 1]))
  }

  function Convert(words: seq<string>, device: Option<int>): Option<Block>
    requires AllTokens(words)
  {
    if |words| < 3 then None
    else
      var byte_count := TokenValue(words[2]);
      Some(Block(if device.Some? then device.value else TokenValue(words[0]), TokenValue(words[1]), byte_count,
                 Registers(DataWords(words, byte_count))))
  }

  method ConvertBlock(words: seq<string>, device: Option<int>) returns (block: Option<Block>)
    requires AllTokens(words)
    ensures block == Convert(words, device)
  {
    hide IsToken, TokenValue;
    if |words| < 3 {
      return None;
    }
    var byte_count := TokenValue(words[2]);
    var data := DataWords(words, byte_count);
    var registers: seq<Register> := [];
    var number := FIRST_REGISTER;
    var i := 0;
    while i < |data|
      invariant 0 <= i <= |data| + 1 && i % 2 == 0 && number == FIRST_REGISTER + |registers|
      invariant |registers| == if i <= |data| then i / 2 else |data| / 2
      invariant forall k :: 0 <= k < |registers| ==> registers[k] == Registers(data)[k]
    {
      if i + 1 < |data| {
        registers := registers + [Register(number, data[i], data[i + 1])];
        number := number + 1;
      }
      i := i + 2;
    }
    assert registers == Registers(data);
    var header := if device.Some? then device.value else TokenValue(words[0]);
    block := Some(Block(header, TokenValue(words[1]), byte_count, registers));
  }

  // ----- the response file -----

  const DECIMALS := "0123456789"

  function Decimal(n: nat): string {
    if n < 10 then [DECIMALS[n]] else Decimal(n / 10) + [DECIMALS[n % 10]]
  }

  function SignedDecimal(n: int): string {
    if n < 0 then "-" + Decimal(-n) else Decimal(n)
  }

  /** A number behind its prefix; a minus sign comes between the two. */
  function Prefixed(n: int): string {
    "0x" + if n < 0 then "-" + HexOf(-n) else HexOf(n)
  }

  function RegisterLines(registers: seq<Register>): seq<string> {
    if |registers| == 0 then []
    else
      var last := registers[|registers| - 1];
      RegisterLines(registers[..|registers| - 1]) + ["#" + Decimal(last.number), last.high, last.low]
  }

  const TITLE := "# Modbus Function 4 Response for Device "
  const NOTE := "# Registers starting at 3001"

  function HeaderLines(b: Block): seq<string> {
    [TITLE + SignedDecimal(b.device), NOTE, Prefixed(b.device), Prefixed(b.function_code), Prefixed(b.byte_count)]
  }

  function FileLines(b: Block): seq<string> {
    HeaderLines(b) + RegisterLines(b.registers)
  }

  method WriteRegisterFile(b: Block) returns (lines: seq<string>)
    ensures lines == FileLines(b)
  {
    hide Decimal, HeaderLines;
    lines := HeaderLines(b);
    var i := 0;
    while i < |b.registers|
      invariant 0 <= i <= |b.registers|
      invariant lines == HeaderLines(b) + RegisterLines(b.registers[..i])
    {
      assert b.registers[..i + 1][..i] == b.registers[..i];
      var r := b.registers[i];
      lines := lines + ["#" + Decimal(r.number), r.high, r.low];
      i := i + 1;
    }
    assert b.registers[..i] == b.registers;
  }

  // ----- what the emulators read in it -----

  /** The bytes that words stand for; values above a byte are dropped. */
  function TokenBytes(words: seq<string>): seq<byte>
    requires AllTokens(words)
  {
    if |words| == 0 then []
    else
      var value := TokenValue(words[|words| - 1]);
      TokenBytes(words[..|words| - 1]) + if value <= 0xFF then [ToByte(value)] else []
  }

  lemma TokenBytesMore(words: seq<string>, word: string)
    requires AllTokens(words) && IsToken(word)
    ensures TokenBytes(words + [word]) == TokenBytes(words) + ParseLines([word])
  {
    ParseOne(word);
    assert (words + [word])[..|words|] == words;
    ParseToken(word);
  }

  lemma ParseOne(line: string)
    ensures ParseLines([line]) == if ParseLine(line).Some? then [ParseLine(line).value] else []
  {
    assert [line][..0] == [];
  }

  lemma ParseThree(a: string, b: string, c: string)
    ensures ParseLines([a, b, c]) == ParseLines([a]) + ParseLines([b]) + ParseLines([c])
  {
    ParseAppend([a], [b]);
    ParseAppend([a, b], [c]);
    assert [a] + [b] == [a, b] && [a, b] + [c] == [a, b, c];
  }

  lemma {:induction false} RegistersComeBack(data: seq<string>, k: nat)
    requires AllTokens(data) && k <= |data| / 2
    ensures ParseLines(RegisterLines(Registers(data)[..k])) == TokenBytes(data[..2 * k])
  {
    hide ParseLines, ParseLine, TokenBytes, TokenValue, IsToken, Decimal;
    var registers := Registers(data);
    if k == 0 {
      Nothing();
      assert data[..0] == [] && registers[..0] == [];
    } else {
      var r := registers[k - 1];
      var number := "#" + Decimal(r.number);
      RegistersComeBack(data, k - 1);
      assert registers[..k][..k - 1] == registers[..k - 1];
      ParseAppend(RegisterLines(registers[..k - 1]), [number, r.high, r.low]);
      ParseThree(number, r.high, r.low);
      ParseComment(number);
      ParseOne(number);
      TokenBytesMore(data[..2 * k - 2], r.high);
      TokenBytesMore(data[..2 * k - 1], r.low);
      assert data[..2 * k - 2] + [r.high] == data[..2 * k - 1] && data[..2 * k - 1] + [r.low] == data[..2 * k];
    }
  }

  lemma Nothing()
    ensures ParseLines([]) == [] && TokenBytes([]) == []
  {
  }

  lemma PrefixedIsToken(n: nat)
    ensures IsToken(Prefixed(n)) && TokenValue(Prefixed(n)) == n
  {
    HexRoundTrip(n);
    assert Prefixed(n)[2..] == HexOf(n);
  }

  lemma PrefixedIsRead(word: string)
    requires IsToken(word)
    ensures ParseLines([Prefixed(TokenValue(word))]) == TokenBytes([word])
  {
    hide ParseLine, ParseLines, TokenValue, Prefixed, IsToken;
    var n := TokenValue(word);
    PrefixedIsToken(n);
    ParseOne(Prefixed(n));
    ParseToken(Prefixed(n));
    OneWord(word);
  }

  lemma OneWord(word: string)
    requires IsToken(word)
    ensures TokenBytes([word]) == if TokenValue(word) <= 0xFF then [ToByte(TokenValue(word))] else []
  {
    hide TokenValue, IsToken;
    assert [word][..0] == [];
  }

  lemma TokenBytesAppend(first: seq<string>, word: string)
    requires AllTokens(first) && IsToken(word)
    ensures TokenBytes(first + [word]) == TokenBytes(first) + TokenBytes([word])
  {
    hide TokenValue, IsToken;
    assert (first + [word])[..|first|] == first && [word][..0] == [];
  }

  lemma HeaderIsRead(b: Block, words: seq<string>)
    requires |words| >= 3 && AllTokens(words)
    requires b.function_code == TokenValue(words[1]) && b.byte_count == TokenValue(words[2])
    ensures ParseLines(HeaderLines(b)) == ParseLines([Prefixed(b.device)]) + TokenBytes(words[1..3])
  {
    hide ParseLines, ParseLine, TokenBytes, TokenValue, IsToken, Prefixed, SignedDecimal;
    var title, note := HeaderLines(b)[0], HeaderLines(b)[1];
    ParseComment(title);
    ParseComment(note);
    ParseOne(title);
    ParseOne(note);
    var d, f, c := Prefixed(b.device), Prefixed(b.function_code), Prefixed(b.byte_count);
    ParseThree(title, note, d);
    ParseAppend([title, note, d], [f]);
    ParseAppend([title, note, d, f], [c]);
    assert [title, note, d] + [f] == [title, note, d, f] && [title, note, d, f] + [c] == HeaderLines(b);
    PrefixedIsRead(words[1]);
    PrefixedIsRead(words[2]);
    TokenBytesAppend([words[1]], words[2]);
    assert [words[1]] + [words[2]] == words[1..3];
  }

  // ----- through the file as text -----

  predicate OneLine(s: string) {
    forall j :: 0 <= j < |s| ==> s[j] != '\n'
  }

  lemma {:induction false} DecimalIsOneLine(n: nat)
    ensures OneLine(Decimal(n))
  {
    if n >= 10 {
      DecimalIsOneLine(n / 10);
    }
  }

  lemma TokenIsOneLine(s: string)
    requires IsToken(s)
    ensures OneLine(s)
  {
    assert forall j :: 2 <= j < |s| ==> s[j] == s[2..][j - 2];
  }

  lemma DigitsAreOneLine(s: string)
    requires AllDigits(s)
    ensures OneLine(s)
  {
  }

  lemma PrefixedIsOneLine(n: int)
    ensures OneLine(Prefixed(n))
  {
    hide HexOf, AllDigits;
    var m := if n < 0 then -n else n;
    HexRoundTrip(m);
    DigitsAreOneLine(HexOf(m));
  }

  lemma TitleIsOneLine(n: int)
    ensures OneLine(TITLE + SignedDecimal(n)) && OneLine(NOTE)
  {
    hide Decimal;
    DecimalIsOneLine(if n < 0 then -n else n);
    assert OneLine(TITLE);
  }

  lemma HeaderHasNoBreaks(b: Block)
    ensures NoBreaks(HeaderLines(b))
  {
    hide Prefixed, SignedDecimal, TITLE, NOTE;
    TitleIsOneLine(b.device);
    PrefixedIsOneLine(b.device);
    PrefixedIsOneLine(b.function_code);
    PrefixedIsOneLine(b.byte_count);
  }

  lemma {:induction false} RegistersHaveNoBreaks(registers: seq<Register>)
    requires forall k :: 0 <= k < |registers| ==> IsToken(registers[k].high) && IsToken(registers[k].low)
    ensures NoBreaks(RegisterLines(registers))
  {
    hide Decimal, IsToken;
    if |registers| > 0 {
      var front, last := registers[..|registers| - 1], registers[|registers| - 1];
      RegistersHaveNoBreaks(front);
      DecimalIsOneLine(last.number);
      TokenIsOneLine(last.high);
      TokenIsOneLine(last.low);
    }
  }

  lemma RegistersAreTokens(data: seq<string>)
    requires AllTokens(data)
    ensures forall k :: 0 <= k < |Registers(data)| ==>
      IsToken(Registers(data)[k].high) && IsToken(Registers(data)[k].low)
  {
    hide IsToken;
  }

  lemma BreaksAppend(a: seq<string>, b: seq<string>)
    requires NoBreaks(a) && NoBreaks(b)
    ensures NoBreaks(a + b)
  {
  }

  /** What the emulators make of the file a block is written to. */
  function Replayed(b: Block): seq<byte> {
    ParseLines(LinesOf(TextOf(FileLines(b))))
  }

  function Part(words: seq<string>, from: nat, to: nat): (part: seq<string>)
    requires from <= to <= |words|
    ensures AllTokens(words) ==> AllTokens(part)
  {
    words[from..to]
  }

  /** The file gives back the header and the part of the data that makes up whole registers,
      for words of any spelling and any value. */
  lemma ReplayedIsEvenPart(words: seq<string>, device: Option<int>)
    requires AllTokens(words) && |words| >= 3
    ensures var b := Convert(words, device).value;
      var data := DataWords(words, b.byte_count);
      && AllTokens(data)
      && Replayed(b) == ParseLines([Prefixed(b.device)])
           + TokenBytes(Part(words, 1, 3)) + TokenBytes(Part(data, 0, 2 * (|data| / 2)))
    ensures device.None? ==>
      ParseLines([Prefixed(Convert(words, device).value.device)]) == TokenBytes(Part(words, 0, 1))
  {
    hide ParseLines, TokenBytes, TokenValue, IsToken, Prefixed, HeaderLines, RegisterLines, TextOf, LinesOf, NoBreaks;
    var b := Convert(words, device).value;
    var data := DataWords(words, b.byte_count);
    HeaderHasNoBreaks(b);
    RegistersAreTokens(data);
    RegistersHaveNoBreaks(b.registers);
    BreaksAppend(HeaderLines(b), RegisterLines(b.registers));
    LinesComeBack(FileLines(b));
    ParseAppend(HeaderLines(b), RegisterLines(b.registers));
    HeaderIsRead(b, words);
    RegistersComeBack(data, |data| / 2);
    assert Registers(data)[..|data| / 2] == Registers(data);
    PrefixedIsRead(words[0]);
    assert Part(words, 0, 1) == [words[0]] && data[..2 * (|data| / 2)] == Part(data, 0, 2 * (|data| / 2));
  }

  // ----- the file by its lines -----

  function DecimalValue(s: string): int {
    if |s| == 0 then 0 else 10 * DecimalValue(s[..|s| - 1]) + (s[|s| - 1] as int - '0' as int)
  }

  lemma {:induction false} DecimalRoundTrip(n: nat)
    ensures DecimalValue(Decimal(n)) == n
  {
    if n < 10 {
      assert Decimal(n)[..0] == "";
    } else {
      DecimalRoundTrip(n / 10);
      assert Decimal(n)[..|Decimal(n)| - 1] == Decimal(n / 10);
    }
  }

  lemma {:induction false} RegisterLinesAt(registers: seq<Register>, k: nat)
    requires k < |registers|
    ensures var r := registers[k];
      && |RegisterLines(registers)| == 3 * |registers|
      && RegisterLines(registers)[3 * k..3 * k + 3] == ["#" + Decimal(r.number), r.high, r.low]
  {
    hide Decimal;
    var n := |registers| - 1;
    assert |RegisterLines(registers[..n])| == 3 * n by {
      if n > 0 {
        RegisterLinesAt(registers[..n], 0);
      }
    }
    if k < n {
      RegisterLinesAt(registers[..n], k);
    }
  }

  /** The file of a captured answer: five lines of heading, and for each whole register that the answer holds and its
      byte count covers, the line with its number, from 3001 on, and the two words of the log as they stand there. */
  lemma RegisterFileLayout(words: seq<string>, device: Option<int>, k: nat)
    requires AllTokens(words) && |words| >= 3
    ensures var covered := if TokenValue(words[2]) < |words| - 3 then TokenValue(words[2]) else |words| - 3;
      var lines := FileLines(Convert(words, device).value);
      && |lines| == 5 + 3 * (covered / 2)
      && (k < covered / 2 ==>
            && |lines[5 + 3 * k]| > 0 && lines[5 + 3 * k][0] == '#'
            && DecimalValue(lines[5 + 3 * k][1..]) == 3001 + k
            && lines[6 + 3 * k] == words[3 + 2 * k] && lines[7 + 3 * k] == words[4 + 2 * k])
  {
    hide Decimal, DecimalValue, IsToken, TokenValue, HeaderLines, RegisterLines;
    var b := Convert(words, device).value;
    var data := DataWords(words, TokenValue(words[2]));
    HasFiveLines(b);
    if |b.registers| > 0 {
      RegisterLinesAt(b.registers, 0);
    } else {
      NoRegisters();
    }
    if k < |b.registers| {
      RegisterLinesAt(b.registers, k);
      DecimalRoundTrip(3001 + k);
      var lines, three := RegisterLines(b.registers), RegisterLines(b.registers)[3 * k..3 * k + 3];
      assert three[0] == lines[3 * k] && three[1] == lines[3 * k + 1] && three[2] == lines[3 * k + 2];
      assert ("#" + Decimal(3001 + k))[1..] == Decimal(3001 + k);
      assert data[2 * k] == words[3 + 2 * k] && data[2 * k + 1] == words[4 + 2 * k];
    }
  }

  /** The heading: two comments, then the device that was given or else the first word of the log, the function and the
      byte count, in hexadecimal. */
  lemma HeadingLayout(words: seq<string>, device: Option<nat>)
    requires AllTokens(words) && |words| >= 3
    ensures var given: Option<int> := if device.Some? then Some(device.value) else None;
      var lines := FileLines(Convert(words, given).value);
      && |lines| >= 5 && |lines[0]| > 0 && lines[0][0] == '#' && |lines[1]| > 0 && lines[1][0] == '#'
      && IsToken(lines[2]) && TokenValue(lines[2]) == (if device.Some? then device.value else TokenValue(words[0]))
      && IsToken(lines[3]) && TokenValue(lines[3]) == TokenValue(words[1])
      && IsToken(lines[4]) && TokenValue(lines[4]) == TokenValue(words[2])
  {
    hide IsToken, TokenValue, Prefixed, RegisterLines, SignedDecimal;
    PrefixedIsToken(if device.Some? then device.value else TokenValue(words[0]));
    PrefixedIsToken(TokenValue(words[1]));
    PrefixedIsToken(TokenValue(words[2]));
  }

  lemma HasFiveLines(b: Block)
    ensures |HeaderLines(b)| == 5
  {
  }

  lemma NoRegisters()
    ensures RegisterLines([]) == []
  {
  }
}
