/** Hexadecimal numbers as the scripts print them and the emulators read them. */
module HexText {
  import opened Bytes
  import opened Collections

  // ----- digits -----

  const DIGITS := "0123456789abcdef"

  function Digit(n: nat): char
    requires n < 16
  {
    DIGITS[n]
  }

  predicate IsDigit(c: char) { '0' <= c <= '9' || 'a' <= c <= 'f' || 'A' <= c <= 'F' }

  function DigitValue(c: char): (n: nat)
    requires IsDigit(c)
    ensures n < 16
  {
    if '0' <= c <= '9' then c as int - '0' as int
    else if 'a' <= c <= 'f' then c as int - 'a' as int + 10
    else c as int - 'A' as int + 10
  }

  predicate AllDigits(s: string) {
    forall i :: 0 <= i < |s| ==> IsDigit(s[i])
  }

  /** Lower case, without leading zeros. */
  function HexOf(n: nat): string {
    if n < 16 then [Digit(n)] else HexOf(n / 16) + [Digit(n % 16)]
  }

  function Value(s: string): nat
    requires AllDigits(s)
  {
    if |s| == 0 then 0 else 16 * Value(s[..|s| - 1]) + DigitValue(s[|s| - 1])
  }

  lemma DigitRoundTrip(n: nat)
    requires n < 16
    ensures IsDigit(Digit(n)) && DigitValue(Digit(n)) == n
  {
  }

  lemma {:induction false} HexRoundTrip(n: nat)
    ensures |HexOf(n)| > 0 && AllDigits(HexOf(n)) && Value(HexOf(n)) == n
  {
    hide Digit, IsDigit, DigitValue;
    DigitRoundTrip(n % 16);
    if n >= 16 {
      HexRoundTrip(n / 16);
      assert HexOf(n)[..|HexOf(n)| - 1] == HexOf(n / 16);
    } else {
      assert HexOf(n)[..0] == "";
    }
  }

  // ----- the reader of one line -----

  predicate IsSpace(c: char) { c == ' ' || c == '\t' || c == '\r' || c == '\n' }

  function TrimLeft(s: string): string {
    if |s| > 0 && IsSpace(s[0]) then TrimLeft(s[1..]) else s
  }

  function TrimRight(s: string): string {
    if |s| > 0 && IsSpace(s[|s| - 1]) then TrimRight(s[..|s| - 1]) else s
  }

  function Trim(s: string): string { TrimRight(TrimLeft(s)) }

  function SkipPrefix(s: string): string {
    if |s| >= 2 && s[0] == '0' && (s[1] == 'x' || s[1] == 'X') then s[2..] else s
  }

  function SkipSign(s: string): string {
    if |s| > 0 && (s[0] == '-' || s[0] == '+') then s[1..] else s
  }

  /** The longest beginning that consists of digits. */
  function DigitRun(s: string): (digits: string)
    ensures AllDigits(digits)
  {
    if |s| > 0 && IsDigit(s[0]) then [s[0]] + DigitRun(s[1..]) else ""
  }

  /** An unsigned number of 32 bits: sign, prefix, digits; what follows them is ignored,
      and a minus sign turns the number round within the 32 bits. */
  function Scan(s: string): (n: Option<nat>)
    ensures n.Some? ==> n.value < 0x1_0000_0000
  {
    var digits := DigitRun(SkipPrefix(SkipSign(s)));
    if |digits| == 0 || Value(digits) >= 0x1_0000_0000 then None
    else if s[0] == '-' then Some((0x1_0000_0000 - Value(digits)) % 0x1_0000_0000)
    else Some(Value(digits))
  }

  /** Empty lines, comments, text that is no number and numbers above a byte give nothing. */
  function ParseLine(line: string): Option<byte> {
    var trimmed := Trim(line);
    if |trimmed| == 0 || trimmed[0] == '#' then None
    else
      match Scan(trimmed)
      case None => None
      case Some(n) => if n <= 0xFF then Some(ToByte(n)) else None
  }

  function ParseLines(lines: seq<string>): seq<byte> {
    if |lines| == 0 then []
    else
      var last := ParseLine(lines[|lines| - 1]);
      ParseLines(lines[..|lines| - 1]) + if last.Some? then [last.value] else []
  }

  /** The loop of the emulators over the lines of a response file. */
  method ReadResponse(lines: seq<string>) returns (data: seq<byte>)
    ensures data == ParseLines(lines)
  {
    hide Scan, Trim;
    data := [];
    var i := 0;
    while i < |lines|
      invariant 0 <= i <= |lines|
      invariant data == ParseLines(lines[..i])
    {
      assert lines[..i + 1][..i] == lines[..i];
      var trimmed := Trim(lines[i]);
      if |trimmed| > 0 && trimmed[0] != '#' {
        var value := Scan(trimmed);
        if value.Some? && value.value <= 0xFF {
          data := data + [ToByte(value.value)];
        }
      }
      i := i + 1;
    }
    assert lines[..i] == lines;
  }

  lemma {:induction false} ParseAppend(first: seq<string>, second: seq<string>)
    ensures ParseLines(first + second) == ParseLines(first) + ParseLines(second)
  {
    hide ParseLine;
    if |second| == 0 {
      assert first + second == first;
    } else {
      var n := |second| - 1;
      assert (first + second)[..|first| + n] == first + second[..n];
      ParseAppend(first, second[..n]);
    }
  }

  // ----- tokens -----

  /** What the pattern of the scripts finds in a line. */
  predicate IsToken(s: string) {
    |s| >= 3 && s[0] == '0' && s[1] == 'x' && AllDigits(s[2..])
  }

  function TokenValue(s: string): nat
    requires IsToken(s)
  {
    Value(s[2..])
  }

  lemma {:induction false} RunOfDigits(s: string)
    requires AllDigits(s)
    ensures DigitRun(s) == s
  {
    if |s| > 0 {
      RunOfDigits(s[1..]);
    }
  }

  /** A token is read as its value, or dropped if that does not fit into a byte. */
  lemma ParseToken(s: string)
    requires IsToken(s)
    ensures ParseLine(s) == if TokenValue(s) <= 0xFF then Some(ToByte(TokenValue(s))) else None
  {
    hide Value, ToByte;
    assert IsDigit(s[2..][|s| - 3]);
    assert TrimLeft(s) == s && TrimRight(s) == s;
    RunOfDigits(s[2..]);
    hide DigitRun;
    assert SkipSign(s) == s && SkipPrefix(s) == s[2..];
  }

  lemma ParseComment(s: string)
    requires |s| > 0 && s[0] == '#'
    ensures ParseLine(s) == None
  {
    hide Scan;
    HashStays(s);
  }

  lemma {:induction false} HashStays(s: string)
    requires |s| > 0 && s[0] == '#'
    ensures |TrimRight(s)| > 0 && TrimRight(s)[0] == '#'
  {
    if IsSpace(s[|s| - 1]) {
      HashStays(s[..|s| - 1]);
    }
  }

  // ----- the numbers of a line in every spelling -----

  /** Nothing but spaces, tabs and line ends. */
  predicate Blank(s: string) {
    forall i :: 0 <= i < |s| ==> s[i] == ' ' || s[i] == '\t' || s[i] == '\r' || s[i] == '\n'
  }

  /** Text that begins and ends with something else, or nothing at all. */
  predicate Dense(s: string) {
    |s| == 0 || (!Blank([s[0]]) && !Blank([s[|s| - 1]]))
  }

  lemma {:induction false} TrimFront(a: string, s: string)
    requires Blank(a) && (|s| == 0 || !Blank([s[0]]))
    ensures TrimLeft(a + s) == s
  {
    if |a| == 0 {
      assert a + s == s;
      assert |s| > 0 ==> !IsSpace([s[0]][0]);
    } else {
      assert (a + s)[1..] == a[1..] + s;
      TrimFront(a[1..], s);
    }
  }

  lemma {:induction false} TrimBack(s: string, b: string)
    requires Blank(b) && (|s| == 0 || !Blank([s[|s| - 1]]))
    ensures TrimRight(s + b) == s
  {
    if |b| == 0 {
      assert s + b == s;
      assert |s| > 0 ==> !IsSpace([s[|s| - 1]][0]);
    } else {
      assert (s + b)[..|s| + |b| - 1] == s + b[..|b| - 1];
      TrimBack(s, b[..|b| - 1]);
    }
  }

  /** White space around the text of a line does not count, and nothing else is taken off. */
  lemma TrimIsExact(a: string, s: string, b: string)
    requires Blank(a) && Blank(b) && Dense(s)
    ensures Trim(a + s + b) == s
  {
    hide TrimLeft, TrimRight;
    if |s| == 0 {
      assert a + s + b == a + b;
      TrimFront(a + b, "");
      assert a + b + "" == a + b;
      TrimBack("", "");
      assert "" + "" == "";
    } else {
      assert a + s + b == a + (s + b) && (s + b)[0] == s[0];
      TrimFront(a, s + b);
      TrimBack(s, b);
    }
  }

  lemma {:induction false} RunStops(digits: string, tail: string)
    requires AllDigits(digits) && (|tail| == 0 || !IsDigit(tail[0]))
    ensures DigitRun(digits + tail) == digits
  {
    if |digits| == 0 {
      assert digits + tail == tail;
    } else {
      assert (digits + tail)[1..] == digits[1..] + tail;
      RunStops(digits[1..], tail);
    }
  }

  predicate Prefix(prefix: string) { prefix == "" || prefix == "0x" || prefix == "0X" }

  lemma DigitIsSomething(c: char)
    requires IsDigit(c)
    ensures !Blank([c]) && c != '#' && c != 'x' && c != 'X' && c != '-' && c != '+'
  {
    assert [c][0] == c;
  }

  lemma NumberIsDense(prefix: string, digits: string)
    requires Prefix(prefix) && |digits| > 0 && AllDigits(digits)
    ensures var s := prefix + digits;
      Dense(s) && s[0] != '#' && s[0] != '-' && s[0] != '+' && SkipPrefix(s) == digits
  {
    var s := prefix + digits;
    assert s[|s| - 1] == digits[|digits| - 1];
    assert IsDigit(digits[|digits| - 1]) && IsDigit(digits[0]) && IsDigit('0');
    DigitIsSomething(digits[|digits| - 1]);
    DigitIsSomething(digits[0]);
    DigitIsSomething('0');
    hide Blank;
    if prefix == "" {
      assert s == digits;
      assert |digits| > 1 ==> IsDigit(digits[1]);
    }
  }

  /** A line with a number, with or without prefix, in digits of either case, alone between white space:
      the byte of this value, or nothing if it is above 255. */
  lemma NumberLine(a: string, prefix: string, digits: string, b: string)
    requires Blank(a) && Blank(b) && Prefix(prefix) && |digits| > 0 && AllDigits(digits)
    ensures ParseLine(a + (prefix + digits) + b) == if Value(digits) <= 255 then Some(ToByte(Value(digits))) else None
  {
    hide Trim, Value, ToByte, Blank, Dense, DigitRun, AllDigits, IsDigit;
    var s := prefix + digits;
    NumberIsDense(prefix, digits);
    TrimIsExact(a, s, b);
    RunStops(digits, "");
    assert digits + "" == digits;
    assert SkipSign(s) == s;
  }

  lemma SignIsDense(sign: string, prefix: string, digits: string)
    requires (sign == "-" || sign == "+") && Prefix(prefix) && |digits| > 0 && AllDigits(digits)
    ensures var s := sign + (prefix + digits);
      Dense(s) && s[0] == sign[0] && DigitRun(SkipPrefix(SkipSign(s))) == digits
  {
    hide DigitRun, AllDigits, IsDigit, SkipPrefix;
    var s := sign + (prefix + digits);
    NumberIsDense(prefix, digits);
    assert s[|s| - 1] == (prefix + digits)[|prefix + digits| - 1];
    assert !Blank([s[0]]) by {
      assert [s[0]][0] == sign[0];
    }
    RunStops(digits, "");
    assert digits + "" == digits;
    assert SkipSign(s) == prefix + digits;
  }

  lemma MinusIsScanned(prefix: string, digits: string)
    requires Prefix(prefix) && |digits| > 0 && AllDigits(digits)
    ensures var v := Value(digits);
      Scan("-" + (prefix + digits)) ==
        if v >= 4294967296 then None else if v == 0 then Some(0) else Some(4294967296 - v)
  {
    hide Value, DigitRun, AllDigits, Prefix, SkipPrefix, SkipSign, Dense;
    SignIsDense("-", prefix, digits);
  }

  /** With a minus sign it is taken from 2 to the power of 32, so only 0 and the numbers next to this bound
      give a byte. */
  lemma MinusLine(a: string, prefix: string, digits: string, b: string)
    requires Blank(a) && Blank(b) && Prefix(prefix) && |digits| > 0 && AllDigits(digits)
    ensures var v := Value(digits);
      ParseLine(a + ("-" + (prefix + digits)) + b) ==
        if v == 0 then Some(ToByte(0))
        else if 4294967041 <= v < 4294967296 then Some(ToByte(4294967296 - v))
        else None
  {
    hide Trim, Value, ToByte, DigitRun, AllDigits, Prefix, Dense, Blank, Scan;
    var s := "-" + (prefix + digits);
    SignIsDense("-", prefix, digits);
    TrimIsExact(a, s, b);
    MinusIsScanned(prefix, digits);
  }

  /** Blank lines, and lines whose text begins with a number sign, give nothing. */
  lemma NothingLine(a: string, s: string, b: string)
    requires Blank(a) && Blank(b) && Dense(s) && (s == "" || s[0] == '#')
    ensures ParseLine(a + s + b) == None
  {
    hide Trim, Blank, Dense, Scan;
    TrimIsExact(a, s, b);
  }

  /** A plus sign makes no difference. */
  lemma PlusLine(a: string, prefix: string, digits: string, b: string)
    requires Blank(a) && Blank(b) && Prefix(prefix) && |digits| > 0 && AllDigits(digits)
    ensures ParseLine(a + ("+" + (prefix + digits)) + b) ==
      if Value(digits) <= 255 then Some(ToByte(Value(digits))) else None
  {
    hide Trim, Value, ToByte, DigitRun, AllDigits, Prefix, Dense, Blank, SkipPrefix, SkipSign;
    SignIsDense("+", prefix, digits);
    TrimIsExact(a, "+" + (prefix + digits), b);
  }

  /** The number ends before the first character that is no digit, and what follows is ignored, unless it completes
      a prefix. */
  lemma NumberWithTail(a: string, prefix: string, digits: string, tail: string, b: string)
    requires Blank(a) && Blank(b) && Prefix(prefix) && |digits| > 0 && AllDigits(digits)
    requires |tail| > 0 && !IsDigit(tail[0]) && !Blank([tail[|tail| - 1]])
    requires prefix == "" && digits == "0" ==> tail[0] != 'x' && tail[0] != 'X'
    ensures ParseLine(a + (prefix + digits + tail) + b) ==
      if Value(digits) <= 255 then Some(ToByte(Value(digits))) else None
  {
    hide Trim, Value, ToByte, DigitRun, AllDigits, IsDigit, Dense, Blank, SkipPrefix, Prefix;
    var s := prefix + digits + tail;
    TailIsDense(prefix, digits, tail);
    TrimIsExact(a, s, b);
    RunStops(digits, tail);
    assert SkipSign(s) == s;
  }

  lemma TailIsDense(prefix: string, digits: string, tail: string)
    requires Prefix(prefix) && |digits| > 0 && AllDigits(digits)
    requires |tail| > 0 && !IsDigit(tail[0]) && !Blank([tail[|tail| - 1]])
    requires prefix == "" && digits == "0" ==> tail[0] != 'x' && tail[0] != 'X'
    ensures var s := prefix + digits + tail;
      Dense(s) && s[0] != '#' && s[0] != '-' && s[0] != '+' && SkipPrefix(s) == digits + tail
  {
    hide Blank;
    var s := prefix + digits + tail;
    NumberIsDense(prefix, digits);
    assert s[|s| - 1] == tail[|tail| - 1] && s[0] == (prefix + digits)[0];
    if prefix == "" {
      assert s == digits + tail && IsDigit(digits[0]);
      DigitIsSomething(digits[0]);
      if |digits| > 1 {
        assert IsDigit(digits[1]);
        DigitIsSomething(digits[1]);
      }
    } else {
      assert s[2..] == digits + tail;
    }
  }

  /** A prefix without digits gives nothing, whatever comes behind it. */
  lemma PrefixAlone(a: string, x: char, tail: string, b: string)
    requires Blank(a) && Blank(b) && (x == 'x' || x == 'X')
    requires |tail| > 0 ==> !IsDigit(tail[0]) && !Blank([tail[|tail| - 1]])
    ensures ParseLine(a + (['0', x] + tail) + b) == None
  {
    hide Trim, Blank, IsDigit, Dense;
    var s := ['0', x] + tail;
    PrefixIsDense(x, tail);
    TrimIsExact(a, s, b);
    assert SkipSign(s) == s && SkipPrefix(s) == tail;
  }

  lemma PrefixIsDense(x: char, tail: string)
    requires (x == 'x' || x == 'X') && (|tail| > 0 ==> !Blank([tail[|tail| - 1]]))
    ensures Dense(['0', x] + tail)
  {
    var s := ['0', x] + tail;
    assert [s[0]][0] == '0';
    if |tail| == 0 {
      assert [s[|s| - 1]][0] == x;
    } else {
      assert s[|s| - 1] == tail[|tail| - 1];
    }
  }

  /** Digits of either case count alike. */
  lemma DigitValues(n: nat)
    requires n < 6
    ensures DigitValue("ABCDEF"[n]) == DigitValue("abcdef"[n]) == 10 + n
  {
  }

  // ----- lines and text -----

  predicate NoBreaks(lines: seq<string>) {
    forall i, j :: 0 <= i < |lines| && 0 <= j < |lines[i]| ==> lines[i][j] != '\n'
  }

  function TextOf(lines: seq<string>): string {
    if |lines| == 0 then "" else lines[0] + "\n" + TextOf(lines[1..])
  }

  /** Up to the next line break, or to the end. */
  function FirstLine(text: string): (n: nat)
    ensures n <= |text|
  {
    if |text| == 0 || text[0] == '\n' then 0 else 1 + FirstLine(text[1..])
  }

  function LinesOf(text: string): seq<string>
    decreases |text|
  {
    if |text| == 0 then []
    else
      var n := FirstLine(text);
      [text[..n]] + if n < |text| then LinesOf(text[n + 1..]) else []
  }

  lemma {:induction false} FirstLineEnds(line: string, rest: string)
    requires forall j :: 0 <= j < |line| ==> line[j] != '\n'
    ensures FirstLine(line + "\n" + rest) == |line|
  {
    var text := line + "\n" + rest;
    if |line| > 0 {
      assert text[1..] == line[1..] + "\n" + rest;
      FirstLineEnds(line[1..], rest);
    }
  }

  /** Lines that are written one by one are read back one by one. */
  lemma {:induction false} LinesComeBack(lines: seq<string>)
    requires NoBreaks(lines)
    ensures LinesOf(TextOf(lines)) == lines
  {
    if |lines| > 0 {
      var rest := TextOf(lines[1..]);
      var text := TextOf(lines);
      FirstLineEnds(lines[0], rest);
      LinesComeBack(lines[1..]);
      assert text[|lines[0]| + 1..] == rest && text[..|lines[0]|] == lines[0];
    }
  }
}
