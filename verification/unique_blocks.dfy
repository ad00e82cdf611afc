/** The two scripts that look for answers in a log: one keeps each block of words once,
    the other takes the blocks out of the file the first one writes. */
module UniqueBlocks {
  /** Lines as the scripts tell them apart: the marker, words that were found in an indented line or one
      with a prefix, such a line without any words, and everything else, which ends a block. */
  datatype LogLine = Marker | Data(text: string, words: seq<string>) | Padding | Ending

  /** A block of data lines, and the number of the line at which it was complete. */
  datatype Found = Found(block: seq<LogLine>, line: nat)

  datatype Scan = Scan(inBlock: bool, current: seq<LogLine>, found: seq<Found>)

  const IDLE := Scan(false, [], [])

  function Saved(s: Scan, line: nat): seq<Found> {
    if |s.current| == 0 then s.found else s.found + [Found(s.current, line)]
  }

  function ScanLine(s: Scan, l: LogLine, i: nat): Scan {
    match l
    case Marker => Scan(true, [], Saved(s, i))
    case Data(_, _) => if s.inBlock then s.(current := s.current + [l]) else s
    case Padding => s
    case Ending => if s.inBlock then Scan(false, [], Saved(s, i)) else s
  }

  function ScanLines(lines: seq<LogLine>): Scan {
    if |lines| == 0 then IDLE else ScanLine(ScanLines(lines[..|lines| - 1]), lines[|lines| - 1], |lines| - 1)
  }

  /** All blocks of the log in the order in which they end, repeated ones too. */
  function AllBlocks(lines: seq<LogLine>): seq<Found> {
    Saved(ScanLines(lines), |lines|)
  }

  // ----- where the blocks of a log lie -----

  predicate Markerless(lines: seq<LogLine>) { Marker !in lines }

  /** Lines before any marker, and markers with the lines up to the next one. */
  function Log(noise: seq<LogLine>, sections: seq<seq<LogLine>>): seq<LogLine> {
    if |sections| == 0 then noise
    else Log(noise, sections[..|sections| - 1]) + [Marker] + sections[|sections| - 1]
  }

  /** The lines before the first one that ends a block. */
  function Front(section: seq<LogLine>): seq<LogLine> {
    if Ending !in section then section else Front(section[..|section| - 1])
  }

  function DataLines(lines: seq<LogLine>): seq<LogLine> {
    if |lines| == 0 then []
    else
      var last := lines[|lines| - 1];
      DataLines(lines[..|lines| - 1]) + if last.Data? then [last] else []
  }

  /** The block of the marker that stands at a line, if it has one, and the line that ends it. */
  function BlockAt(at: nat, section: seq<LogLine>): seq<Found> {
    var block := DataLines(Front(section));
    if block == [] then [] else [Found(block, at + 1 + |Front(section)|)]
  }

  function BlocksOf(noise: seq<LogLine>, sections: seq<seq<LogLine>>): seq<Found> {
    if |sections| == 0 then []
    else
      var front := sections[..|sections| - 1];
      BlocksOf(noise, front) + BlockAt(|Log(noise, front)|, sections[|sections| - 1])
  }

  lemma OneMoreSection(noise: seq<LogLine>, sections: seq<seq<LogLine>>, section: seq<LogLine>)
    ensures Log(noise, sections + [section]) == Log(noise, sections) + [Marker] + section
  {
    assert (sections + [section])[..|sections|] == sections;
  }

  lemma LongerSection(lines: seq<LogLine>, noise: seq<LogLine>, sections: seq<seq<LogLine>>, last: LogLine)
    requires |sections| > 0 && lines == Log(noise, sections)
    ensures var n := |sections| - 1;
      lines + [last] == Log(noise, sections[..n] + [sections[n] + [last]])
  {
    hide Log;
    var front, section := sections[..|sections| - 1], sections[|sections| - 1];
    assert sections == front + [section];
    OneMoreSection(noise, front, section);
    OneMoreSection(noise, front, section + [last]);
    assert Log(noise, front) + [Marker] + section + [last] == Log(noise, front) + [Marker] + (section + [last]);
  }

  /** Every log is of this form. */
  lemma {:induction false} EveryLogIsALog(lines: seq<LogLine>)
    returns (noise: seq<LogLine>, sections: seq<seq<LogLine>>)
    ensures lines == Log(noise, sections) && Markerless(noise)
    ensures forall i :: 0 <= i < |sections| ==> Markerless(sections[i])
  {
    hide Log;
    if |lines| == 0 {
      noise, sections := [], [];
      assert Log([], []) == [] by {
        NoSections([]);
      }
    } else {
      var front, last := lines[..|lines| - 1], lines[|lines| - 1];
      assert lines == front + [last];
      noise, sections := EveryLogIsALog(front);
      if last.Marker? {
        OneMoreSection(noise, sections, []);
        sections := sections + [[]];
      } else if |sections| == 0 {
        NoSections(noise);
        NoSections(noise + [last]);
        noise := noise + [last];
      } else {
        LongerSection(front, noise, sections, last);
        sections := sections[..|sections| - 1] + [sections[|sections| - 1] + [last]];
      }
    }
  }

  lemma NoSections(noise: seq<LogLine>)
    ensures Log(noise, []) == noise
  {
  }

  lemma ScanMore(lines: seq<LogLine>, l: LogLine)
    ensures ScanLines(lines + [l]) == ScanLine(ScanLines(lines), l, |lines|)
  {
    hide ScanLine;
    assert (lines + [l])[..|lines|] == lines;
  }

  lemma {:induction false} ScanNoise(noise: seq<LogLine>)
    requires Markerless(noise)
    ensures ScanLines(noise) == IDLE
  {
    if |noise| > 0 {
      ScanNoise(noise[..|noise| - 1]);
      assert noise[|noise| - 1] in noise;
    }
  }

  lemma {:induction false} ScanSection(lines: seq<LogLine>, section: seq<LogLine>)
    requires Markerless(section)
    ensures ScanLines(lines + [Marker] + section) ==
      if Ending in section then Scan(false, [], AllBlocks(lines) + BlockAt(|lines|, section))
      else Scan(true, DataLines(section), AllBlocks(lines))
  {
    hide ScanLines;
    if |section| == 0 {
      ScanMore(lines, Marker);
      assert lines + [Marker] + section == lines + [Marker];
    } else {
      var front, last := section[..|section| - 1], section[|section| - 1];
      assert section == front + [last] && last in section;
      assert lines + [Marker] + section == lines + [Marker] + front + [last];
      ScanSection(lines, front);
      ScanMore(lines + [Marker] + front, last);
      assert Ending in section <==> Ending in front || last.Ending?;
      if last.Ending? && Ending !in front {
        assert Front(section) == front;
      }
    }
  }

  /** The blocks of any log: for each marker the data lines up to the first line that ends a block, up to the next
      marker, or up to the end of the log, unless there are none; in the order of the log. */
  lemma {:induction false} BlocksLieBehindMarkers(noise: seq<LogLine>, sections: seq<seq<LogLine>>)
    requires Markerless(noise) && forall i :: 0 <= i < |sections| ==> Markerless(sections[i])
    ensures AllBlocks(Log(noise, sections)) == BlocksOf(noise, sections)
  {
    hide ScanLines, Markerless;
    if |sections| == 0 {
      ScanNoise(noise);
    } else {
      var front, last := sections[..|sections| - 1], sections[|sections| - 1];
      BlocksLieBehindMarkers(noise, front);
      ScanSection(Log(noise, front), last);
      assert Markerless(last);
      if Ending !in last {
        assert Front(last) == last;
      }
      assert |Log(noise, sections)| == |Log(noise, front)| + 1 + |last|;
    }
  }

  predicate Has(found: seq<Found>, block: seq<LogLine>) {
    exists i :: 0 <= i < |found| && found[i].block == block
  }

  function Insert(unique: seq<Found>, f: Found): seq<Found> {
    if Has(unique, f.block) then unique else unique + [f]
  }

  /** Each block at the place where it was found first. */
  function Firsts(found: seq<Found>): seq<Found> {
    if |found| == 0 then [] else Insert(Firsts(found[..|found| - 1]), found[|found| - 1])
  }

  method Remember(unique: seq<Found>, current: seq<LogLine>, line: nat) returns (more: seq<Found>)
    ensures more == if |current| == 0 then unique else Insert(unique, Found(current, line))
  {
    more := unique;
    if |current| > 0 && !Has(unique, current) {
      more := unique + [Found(current, line)];
    }
  }

  lemma FirstsMore(s: Scan, line: nat)
    ensures Firsts(Saved(s, line)) ==
      if |s.current| == 0 then Firsts(s.found) else Insert(Firsts(s.found), Found(s.current, line))
  {
    if |s.current| > 0 {
      assert (s.found + [Found(s.current, line)])[..|s.found|] == s.found;
    }
  }

  /** The loop of the first script, with its dictionary in the order of insertion. */
  method ExtractUnique(lines: seq<LogLine>) returns (unique: seq<Found>)
    ensures unique == Firsts(AllBlocks(lines))
  {
    hide Firsts, Insert;
    unique := [];
    var inBlock, current := false, [];
    var i := 0;
    assert Firsts([]) == [] by {
      NoFirsts();
    }
    while i < |lines|
      invariant 0 <= i <= |lines|
      invariant var s := ScanLines(lines[..i]);
        inBlock == s.inBlock && current == s.current && unique == Firsts(s.found)
    {
      ghost var s := ScanLines(lines[..i]);
      assert lines[..i + 1][..i] == lines[..i];
      FirstsMore(s, i);
      match lines[i] {
        case Marker =>
          unique := Remember(unique, current, i);
          current := [];
          inBlock := true;
        case Data(_, _) =>
          if inBlock {
            current := current + [lines[i]];
          }
        case Padding =>
        case Ending =>
          if inBlock {
            unique := Remember(unique, current, i);
            current := [];
            inBlock := false;
          }
      }
      i := i + 1;
    }
    assert lines[..i] == lines;
    FirstsMore(ScanLines(lines), |lines|);
    unique := Remember(unique, current, |lines|);
  }

  lemma NoFirsts()
    ensures Firsts([]) == []
  {
  }

  // ----- the result has every block once, in the order of first appearance -----

  ghost predicate Distinct(found: seq<Found>) {
    forall i, j :: 0 <= i < j < |found| ==> found[i].block != found[j].block
  }

  /** Position k holds the first appearance of its block. */
  ghost predicate FirstAt(found: seq<Found>, k: nat) {
    k < |found| && forall i :: 0 <= i < k ==> found[i].block != found[k].block
  }

  lemma {:induction false} FirstsAreDistinct(found: seq<Found>)
    ensures Distinct(Firsts(found))
    ensures forall b :: Has(Firsts(found), b) <==> Has(found, b)
  {
    if |found| > 0 {
      var front, last := found[..|found| - 1], found[|found| - 1];
      FirstsAreDistinct(front);
      forall b
        ensures Has(Firsts(found), b) <==> Has(found, b)
      {
        HasMore(front, last, b);
        HasMore(Firsts(front), last, b);
        assert found == front + [last];
      }
    }
  }

  lemma HasMore(found: seq<Found>, f: Found, b: seq<LogLine>)
    ensures Has(found + [f], b) <==> Has(found, b) || f.block == b
  {
    var more := found + [f];
    if Has(found, b) {
      var i :| 0 <= i < |found| && found[i].block == b;
      assert more[i].block == b;
    }
    if f.block == b {
      assert more[|found|].block == b;
    }
  }

  /** The positions of the first appearances, in increasing order. */
  function Places(found: seq<Found>): seq<nat> {
    if |found| == 0 then []
    else
      var front := found[..|found| - 1];
      if Has(front, found[|front|].block) then Places(front) else Places(front) + [|front|]
  }

  lemma {:induction false} FirstsInOrder(found: seq<Found>)
    ensures |Places(found)| == |Firsts(found)|
    ensures forall k :: 0 <= k < |Places(found)| ==>
      FirstAt(found, Places(found)[k]) && Firsts(found)[k] == found[Places(found)[k]]
    ensures forall j, k :: 0 <= j < k < |Places(found)| ==> Places(found)[j] < Places(found)[k]
  {
    if |found| > 0 {
      var front := found[..|found| - 1];
      FirstsInOrder(front);
      FirstsAreDistinct(front);
      forall k | 0 <= k < |Places(front)|
        ensures FirstAt(found, Places(front)[k])
      {
        assert FirstAt(front, Places(front)[k]);
      }
    }
  }

  // ----- the file in between -----

  datatype FileLine = Title(number: nat) | Text(line: LogLine)

  function TextLines(block: seq<LogLine>): seq<FileLine> {
    seq(|block|, i requires 0 <= i < |block| => Text(block[i]))
  }

  function BlockLines(number: nat, block: seq<LogLine>): seq<FileLine> {
    [Title(number), Text(Marker)] + TextLines(block) + [Text(Ending)]
  }

  /** The heading of the file is four lines of no interest. */
  const HEADING: seq<FileLine> := [Text(Ending), Text(Ending), Text(Ending), Text(Ending)]

  function Printed(unique: seq<Found>): seq<FileLine> {
    if |unique| == 0 then HEADING
    else Printed(unique[..|unique| - 1]) + BlockLines(|unique|, unique[|unique| - 1].block)
  }

  method PrintUnique(unique: seq<Found>) returns (file: seq<FileLine>)
    ensures file == Printed(unique)
  {
    hide BlockLines;
    file := HEADING;
    var index := 0;
    while index < |unique|
      invariant 0 <= index <= |unique|
      invariant file == Printed(unique[..index])
    {
      assert unique[..index + 1][..index] == unique[..index];
      file := file + BlockLines(index + 1, unique[index].block);
      index := index + 1;
    }
    assert unique[..index] == unique;
  }

  // ----- the second script -----

  datatype Numbered = Numbered(number: nat, words: seq<string>)

  datatype Reader = Reader(open: bool, number: nat, inData: bool, words: seq<string>, out: seq<Numbered>)

  const CLOSED := Reader(false, 0, false, [], [])

  /** Blocks of fewer than three words are of no use. */
  function Finished(r: Reader): seq<Numbered> {
    if r.open && |r.words| >= 3 then r.out + [Numbered(r.number, r.words)] else r.out
  }

  function ReadLine(r: Reader, l: FileLine): Reader {
    match l
    case Title(number) => Reader(true, number, false, [], Finished(r))
    case Text(Marker) => if r.open then r.(inData := true) else r
    case Text(Data(_, words)) => if r.open && r.inData then r.(words := r.words + words) else r
    case Text(Padding) => r
    case Text(Ending) => r
  }

  function ReadLines(r: Reader, file: seq<FileLine>): Reader {
    if |file| == 0 then r else ReadLine(ReadLines(r, file[..|file| - 1]), file[|file| - 1])
  }

  /** The loop of the second script over the titles and the lines behind each. */
  method ExtractBlocks(file: seq<FileLine>) returns (blocks: seq<Numbered>)
    ensures blocks == Finished(ReadLines(CLOSED, file))
  {
    blocks := [];
    var open, number, inData, words := false, 0, false, [];
    var i := 0;
    while i < |file|
      invariant 0 <= i <= |file|
      invariant Reader(open, number, inData, words, blocks) == ReadLines(CLOSED, file[..i])
    {
      assert file[..i + 1][..i] == file[..i];
      match file[i] {
        case Title(n) =>
          if open && |words| >= 3 {
            blocks := blocks + [Numbered(number, words)];
          }
          open, number, inData, words := true, n, false, [];
        case Text(line) =>
          if open && line.Marker? {
            inData := true;
          } else if open && inData && line.Data? {
            words := words + line.words;
          }
      }
      i := i + 1;
    }
    assert file[..i] == file;
    if open && |words| >= 3 {
      blocks := blocks + [Numbered(number, words)];
    }
  }

  // ----- both scripts together -----

  function Words(block: seq<LogLine>): seq<string> {
    if |block| == 0 then []
    else
      var last := block[|block| - 1];
      Words(block[..|block| - 1]) + if last.Data? then last.words else []
  }

  /** The blocks of three words and more, under the numbers the first script gave them. */
  function NumberedWords(unique: seq<Found>): seq<Numbered> {
    if |unique| == 0 then []
    else
      var words := Words(unique[|unique| - 1].block);
      NumberedWords(unique[..|unique| - 1]) + if |words| >= 3 then [Numbered(|unique|, words)] else []
  }

  predicate AllData(block: seq<LogLine>) {
    forall i :: 0 <= i < |block| ==> block[i].Data?
  }

  lemma {:induction false} ReadAppend(r: Reader, a: seq<FileLine>, b: seq<FileLine>)
    ensures ReadLines(r, a + b) == ReadLines(ReadLines(r, a), b)
  {
    hide ReadLine;
    if |b| == 0 {
      assert a + b == a;
    } else {
      assert (a + b)[..|a| + |b| - 1] == a + b[..|b| - 1];
      ReadAppend(r, a, b[..|b| - 1]);
    }
  }

  lemma {:induction false} ReadData(r: Reader, block: seq<LogLine>)
    requires r.open && r.inData && AllData(block)
    ensures ReadLines(r, TextLines(block)) == r.(words := r.words + Words(block))
  {
    if |block| == 0 {
      assert r.words + [] == r.words;
    } else {
      var front, last := block[..|block| - 1], block[|block| - 1];
      ReadData(r, front);
      assert TextLines(block)[..|block| - 1] == TextLines(front);
      assert r.words + Words(front) + last.words == r.words + Words(block);
    }
  }

  lemma ReadBlock(r: Reader, number: nat, block: seq<LogLine>)
    requires AllData(block)
    ensures ReadLines(r, BlockLines(number, block)) == Reader(true, number, true, Words(block), Finished(r))
  {
    hide Words, AllData, TextLines;
    var head := [Title(number), Text(Marker)];
    var started := Reader(true, number, true, [], Finished(r));
    ReadTwo(r, Title(number), Text(Marker));
    ReadAppend(r, head, TextLines(block));
    ReadData(started, block);
    assert [] + Words(block) == Words(block);
    ReadAppend(r, head + TextLines(block), [Text(Ending)]);
    ReadNothing(ReadLines(r, head + TextLines(block)), [Text(Ending)]);
  }

  lemma ReadTwo(r: Reader, a: FileLine, b: FileLine)
    ensures ReadLines(r, [a, b]) == ReadLine(ReadLine(r, a), b)
  {
    hide ReadLine;
    assert [a, b][..1] == [a] && [a][..0] == [];
    assert ReadLines(r, [a]) == ReadLine(r, a);
  }

  lemma {:induction false} ReadNothing(r: Reader, file: seq<FileLine>)
    requires forall i :: 0 <= i < |file| ==> file[i] == Text(Ending)
    ensures ReadLines(r, file) == r
  {
    if |file| > 0 {
      ReadNothing(r, file[..|file| - 1]);
    }
  }

  lemma ReadHeading()
    ensures ReadLines(CLOSED, HEADING) == CLOSED
  {
    ReadNothing(CLOSED, HEADING);
  }

  /** Reading back what was printed gives the words of every block that is long enough. */
  lemma {:induction false} PrintedIsRead(unique: seq<Found>)
    requires forall i :: 0 <= i < |unique| ==> AllData(unique[i].block)
    ensures Finished(ReadLines(CLOSED, Printed(unique))) == NumberedWords(unique)
  {
    hide ReadLines, ReadLine, BlockLines, AllData, Words, HEADING;
    if |unique| == 0 {
      ReadHeading();
    } else {
      var front, last := unique[..|unique| - 1], unique[|unique| - 1];
      PrintedIsRead(front);
      ReadAppend(CLOSED, Printed(front), BlockLines(|unique|, last.block));
      ReadBlock(ReadLines(CLOSED, Printed(front)), |unique|, last.block);
    }
  }

  lemma {:induction false} BlocksAreData(lines: seq<LogLine>)
    ensures var s := ScanLines(lines);
      AllData(s.current) && forall i :: 0 <= i < |s.found| ==> AllData(s.found[i].block)
  {
    if |lines| > 0 {
      BlocksAreData(lines[..|lines| - 1]);
    }
  }

  lemma {:induction false} FirstsAreFound(found: seq<Found>)
    requires forall i :: 0 <= i < |found| ==> AllData(found[i].block)
    ensures forall i :: 0 <= i < |Firsts(found)| ==> AllData(Firsts(found)[i].block)
  {
    hide AllData, Has;
    if |found| > 0 {
      FirstsAreFound(found[..|found| - 1]);
    }
  }

  /** A log through both scripts: the words of each different block once, in the order of first appearance. */
  lemma LogThroughBothScripts(lines: seq<LogLine>)
    ensures Finished(ReadLines(CLOSED, Printed(Firsts(AllBlocks(lines))))) == NumberedWords(Firsts(AllBlocks(lines)))
  {
    hide ReadLines, Printed, Firsts, ScanLines, AllData;
    BlocksAreData(lines);
    FirstsAreFound(AllBlocks(lines));
    PrintedIsRead(Firsts(AllBlocks(lines)));
  }

  // ----- what the second script makes of any file -----

  /** A title with the lines up to the next one. */
  datatype Chapter = Chapter(number: nat, lines: seq<LogLine>)

  function ChapterLines(c: Chapter): seq<FileLine> { [Title(c.number)] + TextLines(c.lines) }

  /** Lines before any title, and chapters. */
  function Book(intro: seq<LogLine>, chapters: seq<Chapter>): seq<FileLine> {
    if |chapters| == 0 then TextLines(intro)
    else Book(intro, chapters[..|chapters| - 1]) + ChapterLines(chapters[|chapters| - 1])
  }

  /** The lines that have a marker somewhere before them. */
  function BehindMarker(lines: seq<LogLine>): seq<LogLine> {
    if |lines| == 0 then []
    else
      var front := lines[..|lines| - 1];
      if Marker in front then BehindMarker(front) + [lines[|front|]] else []
  }

  function BookWords(chapters: seq<Chapter>): seq<Numbered> {
    if |chapters| == 0 then []
    else
      var last := chapters[|chapters| - 1];
      var words := Words(BehindMarker(last.lines));
      BookWords(chapters[..|chapters| - 1]) + if |words| >= 3 then [Numbered(last.number, words)] else []
  }

  lemma TextMore(lines: seq<LogLine>, l: LogLine)
    ensures TextLines(lines + [l]) == TextLines(lines) + [Text(l)]
  {
  }

  lemma ReadMore(r: Reader, file: seq<FileLine>, l: FileLine)
    ensures ReadLines(r, file + [l]) == ReadLine(ReadLines(r, file), l)
  {
    hide ReadLine;
    assert (file + [l])[..|file|] == file;
  }

  lemma WordsMore(block: seq<LogLine>, l: LogLine)
    ensures Words(block + [l]) == Words(block) + if l.Data? then l.words else []
  {
    assert (block + [l])[..|block|] == block;
  }

  lemma {:induction false} ReadIntro(intro: seq<LogLine>)
    ensures ReadLines(CLOSED, TextLines(intro)) == CLOSED
  {
    if |intro| > 0 {
      var front, last := intro[..|intro| - 1], intro[|intro| - 1];
      ReadIntro(front);
      assert intro == front + [last];
      TextMore(front, last);
      ReadMore(CLOSED, TextLines(front), Text(last));
    }
  }

  lemma {:induction false} ReadChapter(r: Reader, lines: seq<LogLine>)
    requires r.open && !r.inData && r.words == []
    ensures ReadLines(r, TextLines(lines)) == r.(inData := Marker in lines, words := Words(BehindMarker(lines)))
  {
    hide ReadLines, Words, TextLines;
    if |lines| == 0 {
      NothingToRead(r);
    } else {
      var front, last := lines[..|lines| - 1], lines[|lines| - 1];
      assert lines == front + [last];
      ReadChapter(r, front);
      TextMore(front, last);
      ReadMore(r, TextLines(front), Text(last));
      assert Marker in lines <==> Marker in front || last.Marker?;
      WordsMore(BehindMarker(front), last);
      if Marker !in front {
        NothingBehind(front);
      }
    }
  }

  lemma NothingToRead(r: Reader)
    ensures ReadLines(r, TextLines([])) == r && Words([]) == []
  {
  }

  lemma NothingBehind(lines: seq<LogLine>)
    requires Marker !in lines
    ensures BehindMarker(lines) == []
  {
  }

  /** Of any file, the words of each chapter behind its first marker, in order, if they are three or more. */
  lemma {:induction false} BookIsRead(intro: seq<LogLine>, chapters: seq<Chapter>)
    ensures Finished(ReadLines(CLOSED, Book(intro, chapters))) == BookWords(chapters)
  {
    hide ReadLines, Words, TextLines, BehindMarker;
    if |chapters| == 0 {
      ReadIntro(intro);
    } else {
      var front, last := chapters[..|chapters| - 1], chapters[|chapters| - 1];
      BookIsRead(intro, front);
      var r := ReadLines(CLOSED, Book(intro, front));
      ReadAppend(CLOSED, Book(intro, front), ChapterLines(last));
      ReadAppend(r, [Title(last.number)], TextLines(last.lines));
      ReadTitle(r, last.number);
      ReadChapter(Reader(true, last.number, false, [], Finished(r)), last.lines);
    }
  }

  lemma ReadTitle(r: Reader, number: nat)
    ensures ReadLines(r, [Title(number)]) == Reader(true, number, false, [], Finished(r))
  {
    assert [Title(number)][..0] == [];
  }

  lemma OneMoreChapter(intro: seq<LogLine>, chapters: seq<Chapter>, c: Chapter)
    ensures Book(intro, chapters + [c]) == Book(intro, chapters) + ChapterLines(c)
  {
    assert (chapters + [c])[..|chapters|] == chapters;
  }

  /** Every file is of this form. */
  lemma {:induction false} EveryFileIsABook(file: seq<FileLine>) returns (intro: seq<LogLine>, chapters: seq<Chapter>)
    ensures file == Book(intro, chapters)
  {
    hide Book;
    if |file| == 0 {
      intro, chapters := [], [];
      NoChapters([]);
    } else {
      var front, last := file[..|file| - 1], file[|file| - 1];
      assert file == front + [last];
      intro, chapters := EveryFileIsABook(front);
      match last {
        case Title(number) =>
          OneMoreChapter(intro, chapters, Chapter(number, []));
          chapters := chapters + [Chapter(number, [])];
        case Text(line) =>
          if |chapters| == 0 {
            NoChapters(intro);
            NoChapters(intro + [line]);
            TextMore(intro, line);
            intro := intro + [line];
          } else {
            LongerChapter(front, intro, chapters, line);
            var n := |chapters| - 1;
            chapters := chapters[..n] + [Chapter(chapters[n].number, chapters[n].lines + [line])];
          }
      }
    }
  }

  lemma NoChapters(intro: seq<LogLine>)
    ensures Book(intro, []) == TextLines(intro)
  {
  }

  lemma LongerChapter(file: seq<FileLine>, intro: seq<LogLine>, chapters: seq<Chapter>, line: LogLine)
    requires |chapters| > 0 && file == Book(intro, chapters)
    ensures var n := |chapters| - 1;
      file + [Text(line)] ==
        Book(intro, chapters[..n] + [Chapter(chapters[n].number, chapters[n].lines + [line])])
  {
    hide Book, TextLines;
    var front, c := chapters[..|chapters| - 1], chapters[|chapters| - 1];
    assert chapters == front + [c];
    OneMoreChapter(intro, front, c);
    OneMoreChapter(intro, front, Chapter(c.number, c.lines + [line]));
    TextMore(c.lines, line);
    assert Book(intro, front) + ([Title(c.number)] + TextLines(c.lines)) + [Text(line)] ==
      Book(intro, front) + ([Title(c.number)] + (TextLines(c.lines) + [Text(line)]));
  }

  /** The blocks under their numbers from 1 on, each behind a marker and before an ending line. */
  function ChaptersOf(unique: seq<Found>): seq<Chapter> {
    if |unique| == 0 then []
    else
      ChaptersOf(unique[..|unique| - 1]) + [Chapter(|unique|, [Marker] + unique[|unique| - 1].block + [Ending])]
  }

  lemma {:induction false} PrintedIsABook(unique: seq<Found>)
    ensures Printed(unique) == Book([Ending, Ending, Ending, Ending], ChaptersOf(unique))
  {
    hide Book, TextLines;
    if |unique| == 0 {
      HeadingIsText();
      NoChapters([Ending, Ending, Ending, Ending]);
    } else {
      var front, block := unique[..|unique| - 1], unique[|unique| - 1].block;
      PrintedIsABook(front);
      OneMoreChapter([Ending, Ending, Ending, Ending], ChaptersOf(front),
                     Chapter(|unique|, [Marker] + block + [Ending]));
      BlockIsAChapter(|unique|, block);
    }
  }

  lemma HeadingIsText()
    ensures HEADING == TextLines([Ending, Ending, Ending, Ending])
  {
  }

  lemma BlockIsAChapter(number: nat, block: seq<LogLine>)
    ensures BlockLines(number, block) == ChapterLines(Chapter(number, [Marker] + block + [Ending]))
  {
    assert TextLines([Marker] + block + [Ending]) == [Text(Marker)] + TextLines(block) + [Text(Ending)];
  }
}
