/** Printing a patch and parsing it back, and the whole way from a diff's text to
    the patched file. */
module PatchRoundTrip {
  import opened Text
  import opened Diff
  import opened DiffParsing
  import opened PatchFormatter
  import opened PatchSemantics
  import opened DiffParserAcceptance
  import Properties = DiffParserProperties

  /** A patch line the format can carry: one line of text that starts with the character of its type. */
  predicate PrintableLine(l: PatchLine) {
    l.kind != Hunk && l.text != "" && l.text[0] == PrefixOf(l.kind) && '\n' !in l.text
  }

  predicate PrintableBody(body: seq<PatchLine>) {
    forall i :: 0 <= i < |body| ==> PrintableLine(body[i])
  }

  predicate PrintableHunk(h: PatchHunk) {
    h.body != [] && PrintableBody(h.body) && '\n' !in h.heading
  }

  predicate Printable(patch: seq<PatchHunk>) {
    forall i :: 0 <= i < |patch| ==> PrintableHunk(patch[i])
  }

  lemma PrintableNonEmpty(l: PatchLine)
    requires PrintableLine(l)
    ensures l.text != "" && '\n' !in l.text
  {
  }

  // ---------------------------------------------------------------- what parsing gives back

  /** The parsed lines of a patch body read when the counters stand at `n`. */
  function ParsedBody(body: seq<PatchLine>, n: Counters): seq<DiffLine>
    requires PrintableBody(body)
  {
    if body == [] then []
    else
      assert PrintableLine(body[0]);
      [MakeLine(body[0].text, n).(noTrailingNewLine := body[0].noNewline)]
      + ParsedBody(body[1..], Advance(body[0].text[0], n))
  }

  function HeaderOf(h: PatchHunk): HunkHeader {
    HunkHeader(h.oldStart, h.oldCount, h.newStart, h.newCount)
  }

  function HeaderTextOf(h: PatchHunk): string {
    HunkHeaderText(h.oldStart, h.oldCount, h.newStart, h.newCount) + HeadingText(h.heading)
  }

  function ParsedHunk(h: PatchHunk, consumed: nat): DiffHunk
    requires PrintableHunk(h)
  {
    var lines := [HeaderLine(HeaderTextOf(h))] + ParsedBody(h.body, StartCounters(HeaderOf(h), consumed));
    DiffHunk(HeaderOf(h), lines, consumed, consumed + |lines| - 1)
  }

  function ParsedHunks(patch: seq<PatchHunk>, consumed: nat): seq<DiffHunk>
    requires Printable(patch)
  {
    if patch == [] then []
    else
      var h := ParsedHunk(patch[0], consumed);
      [h] + ParsedHunks(patch[1..], consumed + |h.lines|)
  }

  /** The patch a parsed diff stands for. */
  function BodyOf(lines: seq<DiffLine>): seq<PatchLine> {
    if lines == [] then []
    else [PatchLine(lines[0].kind, lines[0].text, lines[0].noTrailingNewLine)] + BodyOf(lines[1..])
  }

  /** What follows the header and a space in the text of a hunk's first line. */
  function HeadingOf(h: DiffHunk): string {
    var printed := HunkHeaderText(h.header.oldStartLine, h.header.oldLineCount, h.header.newStartLine, h.header.newLineCount);
    if h.lines == [] || |h.lines[0].text| <= |printed| then "" else h.lines[0].text[|printed| + 1..]
  }

  function HunkOf(h: DiffHunk): PatchHunk {
    PatchHunk(h.header.oldStartLine, h.header.oldLineCount, h.header.newStartLine, h.header.newLineCount,
              HeadingOf(h), BodyOf(if h.lines == [] then [] else h.lines[1..]))
  }

  function PatchOf(hunks: seq<DiffHunk>): seq<PatchHunk> {
    if hunks == [] then [] else [HunkOf(hunks[0])] + PatchOf(hunks[1..])
  }

  // ---------------------------------------------------------------- hunk headers

  /** Parsing a printed header gives back its numbers, whatever follows it on its line. */
  lemma HunkHeaderRoundTrip(oldStart: nat, oldCount: nat, newStart: nat, newCount: nat, tail: string)
    ensures ParseHunkHeader(HunkHeaderText(oldStart, oldCount, newStart, newCount) + tail) ==
            Success(HunkHeader(oldStart, oldCount, newStart, newCount))
  {
    hide RangeText, FormatRange, ParseHunkHeader;
    var before, after := FormatRange(oldStart, oldCount), FormatRange(newStart, newCount);
    FormatRangeIsRange(oldStart, oldCount);
    FormatRangeIsRange(newStart, newCount);
    var line := HunkHeaderText(oldStart, oldCount, newStart, newCount) + tail;
    assert HeaderDescribes(line, HunkHeader(oldStart, oldCount, newStart, newCount)) by {
      assert StartsWith(line, HeaderForm(before, after));
    }
    HeaderAcceptedIff(line, HunkHeader(oldStart, oldCount, newStart, newCount));
  }

  lemma FormatRangeIsRange(start: nat, count: nat)
    ensures RangeText(FormatRange(start, count), start, count)
  {
    hide NatToString;
    assert IsNumber(NatToString(start), start) && IsNumber(NatToString(count), count);
  }

  predicate OneLine(s: string) {
    '\n' !in s
  }

  lemma OneLineConcat(a: string, b: string)
    requires OneLine(a) && OneLine(b)
    ensures OneLine(a + b)
  {
  }

  lemma NumberIsOneLine(n: nat)
    ensures OneLine(NatToString(n))
  {
    hide NatToString;
  }

  lemma RangeIsOneLine(start: nat, count: nat)
    ensures OneLine(FormatRange(start, count))
  {
    hide NatToString;
    NumberIsOneLine(start);
    NumberIsOneLine(count);
    assert OneLine(",");
    OneLineConcat(NatToString(start), ",");
    OneLineConcat(NatToString(start) + ",", NatToString(count));
  }

  lemma HeaderTextNoNewline(h: PatchHunk)
    requires '\n' !in h.heading
    ensures '\n' !in HeaderTextOf(h)
    ensures HeaderTextOf(h) != "" && HeaderTextOf(h)[0] == '@'
  {
    hide FormatRange;
    var before, after := FormatRange(h.oldStart, h.oldCount), FormatRange(h.newStart, h.newCount);
    RangeIsOneLine(h.oldStart, h.oldCount);
    RangeIsOneLine(h.newStart, h.newCount);
    OneLineConcat("@@ -", before);
    OneLineConcat("@@ -" + before, " +");
    OneLineConcat("@@ -" + before + " +", after);
    OneLineConcat("@@ -" + before + " +" + after, " @@");
    OneLineConcat(" ", h.heading);
    OneLineConcat("@@ -" + before + " +" + after + " @@", HeadingText(h.heading));
  }

  // ---------------------------------------------------------------- lines of the printed text

  function BodyLines(body: seq<PatchLine>): seq<string> {
    if body == [] then []
    else [body[0].text] + (if body[0].noNewline then [NoNewlineMarker] else []) + BodyLines(body[1..])
  }

  function PatchLines(patch: seq<PatchHunk>): seq<string> {
    if patch == [] then []
    else [HeaderTextOf(patch[0])] + BodyLines(patch[0].body) + PatchLines(patch[1..])
  }

  lemma LinesOf(line: string, rest: string)
    requires '\n' !in line
    ensures Lines(line + "\n" + rest) == [line] + Lines(rest)
  {
    hide FirstLine, AfterLine;
    FirstLineOf(line, rest);
  }

  lemma LinesOfPrinted(l: PatchLine, rest: string)
    requires '\n' !in l.text
    ensures Lines(PrintLine(l) + rest) ==
            [l.text] + (if l.noNewline then [NoNewlineMarker] else []) + Lines(rest)
  {
    hide Lines, NoNewlineMarker;
    Properties.MarkerStart();
    if l.noNewline {
      var tail := NoNewlineMarker + "\n" + rest;
      assert PrintLine(l) + rest == l.text + "\n" + tail;
      LinesOf(l.text, tail);
      LinesOf(NoNewlineMarker, rest);
      assert [l.text] + [NoNewlineMarker] + Lines(rest) == [l.text] + ([NoNewlineMarker] + Lines(rest));
    } else {
      assert PrintLine(l) + rest == l.text + "\n" + rest;
      LinesOf(l.text, rest);
      assert [l.text] + [] == [l.text];
    }
  }

  lemma {:induction false} LinesOfBody(body: seq<PatchLine>, rest: string)
    requires forall i :: 0 <= i < |body| ==> '\n' !in body[i].text
    ensures Lines(PrintBody(body) + rest) == BodyLines(body) + Lines(rest)
  {
    hide PrintLine, Lines, NoNewlineMarker;
    if body == [] {
      assert PrintBody(body) + rest == rest;
    } else {
      var more := PrintBody(body[1..]) + rest;
      assert PrintBody(body) + rest == PrintLine(body[0]) + more;
      LinesOfPrinted(body[0], more);
      LinesOfBody(body[1..], rest);
    }
  }

  lemma {:induction false} LinesOfPatch(patch: seq<PatchHunk>)
    requires Printable(patch)
    ensures Lines(PrintPatch(patch)) == PatchLines(patch)
  {
    hide Lines, HeaderTextOf, PrintBody, BodyLines;
    if patch == [] {
      NoLines();
    } else {
      var h := patch[0];
      var more := PrintBody(h.body) + PrintPatch(patch[1..]);
      HeaderTextNoNewline(h);
      PrintHunkThen(h, PrintPatch(patch[1..]));
      LinesOf(HeaderTextOf(h), more);
      assert PrintableHunk(h);
      assert forall i :: 0 <= i < |h.body| ==> PrintableLine(h.body[i]);
      LinesOfBody(h.body, PrintPatch(patch[1..]));
      LinesOfPatch(patch[1..]);
      assert [HeaderTextOf(h)] + (BodyLines(h.body) + PatchLines(patch[1..])) ==
             [HeaderTextOf(h)] + BodyLines(h.body) + PatchLines(patch[1..]);
    }
  }

  lemma NoLines()
    ensures Lines("") == []
  {
  }

  lemma PrintHunkThen(h: PatchHunk, rest: string)
    ensures PrintHunk(h) + rest == HeaderTextOf(h) + "\n" + (PrintBody(h.body) + rest)
  {
    hide HunkHeaderText, HeadingText, PrintBody;
    var text := HeaderTextOf(h);
    assert text + "\n" + PrintBody(h.body) + rest == text + "\n" + (PrintBody(h.body) + rest);
  }

  // ---------------------------------------------------------------- reading the lines back

  lemma {:induction false} ReadBodyOf(body: seq<PatchLine>, rest: seq<string>, lines: seq<DiffLine>, n: Counters)
    requires PrintableBody(body)
    requires rest == [] || !IsBodyLine(rest[0])
    requires lines != []
    ensures ReadBody(BodyLines(body) + rest, lines, n) == Success((lines + ParsedBody(body, n), rest))
    decreases |body|
  {
    hide NoNewlineMarker, MakeLine, Advance, ReadBody, BodyLines, IsBodyLine, PrintableLine;
    if body == [] {
      NothingToRead(rest, lines, n);
      assert BodyLines(body) + rest == rest;
      assert lines + [] == lines;
    } else {
      var l := body[0];
      assert PrintableLine(l) && l.text != "" by {
        PrintableNonEmpty(l);
      }
      var parsed := MakeLine(l.text, n).(noTrailingNewLine := l.noNewline);
      var next := Advance(l.text[0], n);
      ReadOneLine(l, BodyLines(body[1..]) + rest, lines, n);
      ReadBodyOf(body[1..], rest, lines + [parsed], next);
      BodyLinesThen(body, rest);
      assert lines + [parsed] + ParsedBody(body[1..], next) == lines + ParsedBody(body, n);
    }
  }

  lemma NothingToRead(rest: seq<string>, lines: seq<DiffLine>, n: Counters)
    requires lines != [] && (rest == [] || !IsBodyLine(rest[0]))
    ensures BodyLines([]) == []
    ensures ReadBody(rest, lines, n) == Success((lines, rest))
  {
  }

  lemma BodyLinesThen(body: seq<PatchLine>, rest: seq<string>)
    requires body != []
    ensures BodyLines(body) + rest ==
            [body[0].text] + (if body[0].noNewline then [NoNewlineMarker] else []) + (BodyLines(body[1..]) + rest)
  {
    hide NoNewlineMarker;
  }

  lemma ReadOneLine(l: PatchLine, more: seq<string>, lines: seq<DiffLine>, n: Counters)
    requires PrintableLine(l) && lines != []
    ensures ReadBody([l.text] + (if l.noNewline then [NoNewlineMarker] else []) + more, lines, n) ==
            ReadBody(more, lines + [MakeLine(l.text, n).(noTrailingNewLine := l.noNewline)], Advance(l.text[0], n))
  {
    hide NoNewlineMarker, MakeLine, Advance;
    var line := MakeLine(l.text, n);
    FreshLine(l.text, n);
    var pending := [l.text] + (if l.noNewline then [NoNewlineMarker] else []) + more;
    if l.noNewline {
      MarkerLength();
      assert pending[1..] == [NoNewlineMarker] + more;
      assert pending[1..][1..] == more;
      assert FlagLast(lines + [line]) == lines + [line.(noTrailingNewLine := true)];
    } else {
      assert pending[1..] == more;
      assert line.(noTrailingNewLine := false) == line;
    }
  }

  lemma FreshLine(text: string, n: Counters)
    requires text != ""
    ensures !MakeLine(text, n).noTrailingNewLine
  {
  }

  lemma MarkerLength()
    ensures |NoNewlineMarker| >= 12 && NoNewlineMarker[0] == '\\'
  {
  }

  lemma {:induction false} ParsedBodyLength(body: seq<PatchLine>, n: Counters)
    requires PrintableBody(body)
    ensures |ParsedBody(body, n)| == |body|
  {
    hide MakeLine, Advance;
    if body != [] {
      ParsedBodyLength(body[1..], Advance(body[0].text[0], n));
    }
  }

  lemma ReadHunkOf(h: PatchHunk, rest: seq<string>, consumed: nat)
    requires PrintableHunk(h)
    requires rest == [] || !IsBodyLine(rest[0])
    ensures ReadHunk([HeaderTextOf(h)] + BodyLines(h.body) + rest, consumed) ==
            Success((ParsedHunk(h, consumed), rest))
  {
    hide HunkHeaderText, ParseHunkHeader, ReadBody, PrintableLine;
    var pending := [HeaderTextOf(h)] + BodyLines(h.body) + rest;
    HeaderTextNoNewline(h);
    HunkHeaderRoundTrip(h.oldStart, h.oldCount, h.newStart, h.newCount, HeadingText(h.heading));
    assert pending[1..] == BodyLines(h.body) + rest;
    ReadBodyOf(h.body, rest, [HeaderLine(HeaderTextOf(h))], StartCounters(HeaderOf(h), consumed));
    ParsedBodyLength(h.body, StartCounters(HeaderOf(h), consumed));
  }

  lemma {:induction false} ReadHunksOf(patch: seq<PatchHunk>, consumed: nat)
    requires patch != [] && Printable(patch)
    ensures ReadHunks(PatchLines(patch), consumed) == Success(ParsedHunks(patch, consumed))
    decreases |patch|
  {
    hide ReadHunk, HeaderTextOf, BodyLines, ParsedHunk, IsBodyLine;
    var h, rest := patch[0], PatchLines(patch[1..]);
    NextHeaderEndsBody(patch[1..]);
    ReadHunkOf(h, rest, consumed);
    if |patch| > 1 {
      assert rest != [];
      ReadHunksOf(patch[1..], consumed + |ParsedHunk(h, consumed).lines|);
    } else {
      assert rest == [];
      assert ParsedHunks(patch[1..], consumed + |ParsedHunk(h, consumed).lines|) == [];
      assert [ParsedHunk(h, consumed)] + [] == [ParsedHunk(h, consumed)];
    }
  }

  lemma NextHeaderEndsBody(patch: seq<PatchHunk>)
    requires Printable(patch)
    ensures PatchLines(patch) == [] || !IsBodyLine(PatchLines(patch)[0])
  {
    hide HeaderTextOf, BodyLines;
    if patch != [] {
      assert PrintableHunk(patch[0]);
      HeaderTextNoNewline(patch[0]);
    }
  }

  // ---------------------------------------------------------------- the printed patch

  predicate NoNewlineIn(path: Option<string>) {
    path.Some? ==> '\n' !in path.value
  }

  lemma HeaderLines(from: Option<string>, to: Option<string>, rest: string)
    requires NoNewlineIn(from) && NoNewlineIn(to)
    ensures ScanHeader(Lines(FormatPatchHeader(from, to) + rest)) == (TextHeader, 2)
    ensures |Lines(FormatPatchHeader(from, to) + rest)| >= 2
    ensures Lines(FormatPatchHeader(from, to) + rest)[2..] == Lines(rest)
  {
    hide Lines, ScanHeader, FormatPatchHeader, StartsWith, NoNewlineIn;
    var first, second := HeaderTexts(from, to);
    assert FormatPatchHeader(from, to) + rest == first + "\n" + (second + "\n" + rest);
    LinesOf(first, second + "\n" + rest);
    LinesOf(second, rest);
    ScanTwo(first, second, Lines(rest));
    assert Lines(first + "\n" + (second + "\n" + rest)) == [first, second] + Lines(rest);
  }

  lemma HeaderTexts(from: Option<string>, to: Option<string>) returns (first: string, second: string)
    requires NoNewlineIn(from) && NoNewlineIn(to)
    ensures OneLine(first) && OneLine(second)
    ensures StartsWith(first, "--- ") && StartsWith(second, "+++ ")
    ensures FormatPatchHeader(from, to) == first + "\n" + second + "\n"
  {
    hide StartsWith, OneLine;
    var fromPath := if from.Some? && from.value != "" then "a/" + from.value else "/dev/null";
    var toPath := if to.Some? && to.value != "" then "b/" + to.value else "/dev/null";
    PathIsOneLine("a/", from);
    PathIsOneLine("b/", to);
    first, second := "--- " + fromPath, "+++ " + toPath;
    LabelledPath("--- ", fromPath);
    LabelledPath("+++ ", toPath);
    ConcatAssoc(first + "\n", "+++ ", toPath);
  }

  lemma PathIsOneLine(prefix: string, path: Option<string>)
    requires NoNewlineIn(path) && '\n' !in prefix
    ensures OneLine(if path.Some? && path.value != "" then prefix + path.value else "/dev/null")
  {
  }

  lemma LabelledPath(marker: string, path: string)
    requires '\n' !in marker && OneLine(path)
    ensures OneLine(marker + path) && StartsWith(marker + path, marker)
  {
  }

  lemma ScanTwo(first: string, second: string, rest: seq<string>)
    requires StartsWith(first, "--- ") && StartsWith(second, "+++ ")
    ensures ScanHeader([first, second] + rest) == (TextHeader, 2)
  {
    var lines := [first, second] + rest;
    assert first[0] == '-' && second[0] == '+';
    assert HeaderKind(first) == None;
    assert second[..3] == "+++ "[..3] == "+++";
    assert HeaderKind(second) == Some(TextHeader);
    assert lines[1..][0] == second;
  }

  /** Round trip: the parser reads a printed patch back as the hunks that were printed,
      with their starts, counts, lines and markers, and numbers the lines afresh. */
  lemma PrintedPatchParses(from: Option<string>, to: Option<string>, patch: seq<PatchHunk>)
    requires NoNewlineIn(from) && NoNewlineIn(to)
    requires patch != [] && Printable(patch)
    ensures var r := ParseText(FormatPatchHeader(from, to) + PrintPatch(patch));
            && r.Success? && !r.value.isBinary
            && r.value.hunks == ParsedHunks(patch, 0)
            && PatchOf(r.value.hunks) == patch
  {
    hide ParseText, Lines, ScanHeader, ReadHunks, FormatPatchHeader, PrintPatch, ParsedHunks, PatchOf, PatchLines,
         Printable, NoNewlineIn;
    var text := FormatPatchHeader(from, to) + PrintPatch(patch);
    HeaderLines(from, to, PrintPatch(patch));
    LinesOfPatch(patch);
    ReadHunksOf(patch, 0);
    PatchOfParsed(patch, 0);
    HunksAreParsed(text, ParsedHunks(patch, 0));
  }

  lemma HunksAreParsed(text: string, hunks: seq<DiffHunk>)
    ensures ScanHeader(Lines(text)) == (TextHeader, 2) && |Lines(text)| >= 2 && ReadHunks(Lines(text)[2..], 0) == Success(hunks) ==>
              var r := ParseText(text); r.Success? && !r.value.isBinary && r.value.hunks == hunks
  {
    hide Lines, ScanHeader, ReadHunks, RemoveAll, Join, NoNewlineMarker;
  }

  lemma {:induction false} BodyOfParsed(body: seq<PatchLine>, n: Counters)
    requires PrintableBody(body)
    ensures BodyOf(ParsedBody(body, n)) == body
    decreases |body|
  {
    if body != [] {
      var l := body[0];
      assert PrintableLine(l);
      var parsed := ParsedBody(body, n);
      assert parsed[1..] == ParsedBody(body[1..], Advance(l.text[0], n));
      BodyOfParsed(body[1..], Advance(l.text[0], n));
      assert MakeLine(l.text, n).kind == l.kind;
    }
  }

  lemma HeadingOfParsed(h: PatchHunk, consumed: nat)
    requires PrintableHunk(h)
    ensures HeadingOf(ParsedHunk(h, consumed)) == h.heading
  {
    hide HunkHeaderText, PrintableBody, ParsedBody;
    var text := HeaderTextOf(h);
    if h.heading != "" {
      assert text[|text| - |h.heading|..] == h.heading;
    }
  }

  lemma HunkOfParsed(h: PatchHunk, consumed: nat)
    requires PrintableHunk(h)
    ensures HunkOf(ParsedHunk(h, consumed)) == h
  {
    hide HeaderTextOf, PrintableLine, ParsedBody, BodyOf, HeadingOf;
    HeadingOfParsed(h, consumed);
    var n := StartCounters(HeaderOf(h), consumed);
    BodyOfParsed(h.body, n);
    assert ParsedHunk(h, consumed).lines[1..] == ParsedBody(h.body, n);
  }

  lemma {:induction false} PatchOfParsed(patch: seq<PatchHunk>, consumed: nat)
    requires Printable(patch)
    ensures PatchOf(ParsedHunks(patch, consumed)) == patch
    decreases |patch|
  {
    hide PrintableHunk, ParsedHunk, HunkOf;
    if patch != [] {
      var parsed := ParsedHunk(patch[0], consumed);
      HunkOfParsed(patch[0], consumed);
      PatchOfParsed(patch[1..], consumed + |parsed.lines|);
      var all := ParsedHunks(patch, consumed);
      assert all[1..] == ParsedHunks(patch[1..], consumed + |parsed.lines|);
    }
  }

  // ---------------------------------------------------------------- from the diff's text to the patched file

  predicate OneLineTexts(lines: seq<DiffLine>) {
    forall i :: 0 <= i < |lines| ==> OneLine(lines[i].text)
  }

  /** Hunks a parser can have produced: well formed, each line's text on one line. */
  predicate Parsed(h: DiffHunk) {
    WellFormedHunk(h) && OneLineTexts(h.lines)
  }

  lemma LineForPrintable(d: Direction, line: DiffLine, selected: bool)
    requires line.kind != Hunk ==> WellFormedLine(line)
    requires OneLine(line.text)
    ensures PrintableBody(LineFor(d, line, selected))
  {
    if line.kind != Hunk {
      OneLineConcat(" ", Rest1(line.text));
      OneLineConcat("-", Rest1(line.text));
      OneLineConcat("+", Rest1(line.text));
    }
  }

  lemma PrintableConcat(x: seq<PatchLine>, y: seq<PatchLine>)
    requires PrintableBody(x) && PrintableBody(y)
    ensures PrintableBody(x + y)
  {
    hide PrintableLine;
  }

  lemma {:induction false} BodyForPrintable(d: Direction, lines: seq<DiffLine>, at: nat, selection: Selection)
    requires forall i :: 0 <= i < |lines| ==> lines[i].kind == Hunk || WellFormedLine(lines[i])
    requires OneLineTexts(lines)
    ensures PrintableBody(BodyFor(d, lines, at, selection))
  {
    hide PrintableLine, WellFormedLine, LineFor, OneLine;
    if lines != [] {
      LineForPrintable(d, lines[0], selection(at));
      BodyForPrintable(d, lines[1..], at + 1, selection);
      PrintableConcat(LineFor(d, lines[0], selection(at)), BodyFor(d, lines[1..], at + 1, selection));
    }
  }

  lemma ChangeIsNonEmpty(body: seq<PatchLine>)
    requires HasChange(body)
    ensures body != []
  {
  }

  lemma {:induction false} PatchForPrintable(d: Direction, hunks: seq<DiffHunk>, selection: Selection)
    requires forall i :: 0 <= i < |hunks| ==> Parsed(hunks[i])
    ensures Printable(PatchFor(d, hunks, selection))
  {
    hide BodyFor, PrintableLine, WellFormedLine, OneLineTexts, HasChange;
    if hunks != [] {
      var h := hunks[0];
      assert Parsed(h);
      BodyForPrintable(d, h.lines, h.unifiedDiffStart, selection);
      PatchForPrintable(d, hunks[1..], selection);
      var p := HunkFor(d, h, selection);
      if HasChange(p.body) {
        ChangeIsNonEmpty(p.body);
        assert PrintableHunk(p);
      }
    }
  }

  lemma {:induction false} ReadBodyOneLine(pending: seq<string>, lines: seq<DiffLine>, n: Counters)
    requires lines != [] && OneLineTexts(lines) && forall i :: 0 <= i < |pending| ==> OneLine(pending[i])
    ensures var r := ReadBody(pending, lines, n);
            r.Success? ==> OneLineTexts(r.value.0) && forall i :: 0 <= i < |r.value.1| ==> OneLine(r.value.1[i])
    decreases |pending|
  {
    hide OneLine, MakeLine, Advance;
    if pending != [] && IsBodyLine(pending[0]) {
      if pending[0][0] == '\\' {
        ReadBodyOneLine(pending[1..], FlagLast(lines), n);
      } else {
        Properties.MakeLineText(pending[0], n);
        ReadBodyOneLine(pending[1..], lines + [MakeLine(pending[0], n)], Advance(pending[0][0], n));
      }
    }
  }

  lemma ReadHunkOneLine(pending: seq<string>, consumed: nat)
    requires forall i :: 0 <= i < |pending| ==> OneLine(pending[i])
    ensures var r := ReadHunk(pending, consumed);
            r.Success? ==> OneLineTexts(r.value.0.lines) && forall i :: 0 <= i < |r.value.1| ==> OneLine(r.value.1[i])
  {
    hide ParseHunkHeader, OneLine;
    if pending != [] && pending[0] != "" {
      var header := ParseHunkHeader(pending[0]);
      if header.Success? {
        ReadBodyOneLine(pending[1..], [HeaderLine(pending[0])], StartCounters(header.value, consumed));
      }
    }
  }

  lemma {:induction false} ReadHunksOneLine(pending: seq<string>, consumed: nat)
    requires forall i :: 0 <= i < |pending| ==> OneLine(pending[i])
    ensures var r := ReadHunks(pending, consumed);
            r.Success? ==> forall i :: 0 <= i < |r.value| ==> OneLineTexts(r.value[i].lines)
    decreases |pending|
  {
    hide ReadHunk, OneLine, OneLineTexts;
    ReadHunkOneLine(pending, consumed);
    var r := ReadHunk(pending, consumed);
    if r.Success? && r.value.1 != [] {
      ReadHunksOneLine(r.value.1, consumed + |r.value.0.lines|);
    }
  }

  /** The parser only returns hunks that can be printed again. */
  lemma ParserOutputIsParsed(text: string)
    ensures var r := ParseText(text);
            r.Success? ==> forall i :: 0 <= i < |r.value.hunks| ==> Parsed(r.value.hunks[i])
  {
    hide Lines, ScanHeader, ReadHunks, RemoveAll, Join, NoNewlineMarker, WellFormedHunk, OneLineTexts;
    var lines := Lines(text);
    var n := ScanHeader(lines).1;
    Properties.AcceptedDiffsTile(text);
    Properties.LinesNewlineFree(text);
    assert forall i :: 0 <= i < |lines[n..]| ==> lines[n..][i] == lines[n + i] && lines[n + i] in lines;
    ReadHunksOneLine(lines[n..], 0);
    var r := ParseText(text);
    if r.Success? {
      var hunks := r.value.hunks;
      assert hunks != [] ==> ReadHunks(lines[n..], 0) == Success(hunks);
      forall i | 0 <= i < |hunks|
        ensures Parsed(hunks[i])
      {
        assert hunks[i] in hunks && OneLineTexts(hunks[i].lines);
      }
    }
  }

  /** Staging from end to end. Take the hunks parsed from a diff between `a` and `b`. If
      nothing is selected there is no patch, and nothing to change; otherwise the text
      `formatPatch` returns parses back to a patch that, applied to `a`, makes exactly
      the selected changes. */
  lemma StagedTextMakesSelected(diffText: string, file: WorkingDirectoryFile, a: seq<FileLine>, b: seq<FileLine>)
    requires ParseText(diffText).Success? && IsDiff(ParseText(diffText).value.hunks, a, b)
    requires IsNew(file.status) ==> DeletesNothing(ParseText(diffText).value.hunks)
    requires '\n' !in file.path
    ensures var hunks := ParseText(diffText).value.hunks;
            var patch := PatchFor(Stage(IsNew(file.status)), hunks, file.selection);
            var wanted := MergedFile(hunks, a, b, file.selection);
            var reread := ParseText(FormatPatchHeaderForFile(file) + PrintPatch(patch));
            if patch == [] then wanted == a
            else reread.Success? && Apply(PatchOf(reread.value.hunks), a, 0) == Some(wanted)
  {
    hide ParseText, PatchFor, IsDiff, DeletesNothing, MergedFile, FormatPatchHeader, PrintPatch, Parsed, Printable, PatchOf;
    var hunks := ParseText(diffText).value.hunks;
    var d := Stage(IsNew(file.status));
    ParserOutputIsParsed(diffText);
    PatchForPrintable(d, hunks, file.selection);
    StagingMakesSelected(IsNew(file.status), hunks, a, b, file.selection);
    var patch := PatchFor(d, hunks, file.selection);
    if patch == [] {
      assert a[0..] == a;
    } else {
      var from := if IsNew(file.status) then None else Some(file.path);
      PrintedPatchParses(from, Some(file.path), patch);
    }
  }

  /** Discarding from end to end: the text `formatPatchToDiscardChanges` returns parses
      back to a patch that, applied to `b`, leaves exactly the unselected changes. */
  lemma DiscardTextKeepsUnselected(diffText: string, path: string, selection: Selection,
                                   a: seq<FileLine>, b: seq<FileLine>)
    requires ParseText(diffText).Success? && IsDiff(ParseText(diffText).value.hunks, a, b)
    requires '\n' !in path
    ensures var hunks := ParseText(diffText).value.hunks;
            var patch := PatchFor(Discard, hunks, selection);
            var wanted := MergedFile(hunks, a, b, Complement(selection));
            var reread := ParseText(FormatPatchHeader(Some(path), Some(path)) + PrintPatch(patch));
            if patch == [] then wanted == b
            else reread.Success? && Apply(PatchOf(reread.value.hunks), b, 0) == Some(wanted)
  {
    hide ParseText, PatchFor, IsDiff, MergedFile, FormatPatchHeader, PrintPatch, Parsed, Printable, PatchOf, Complement;
    var hunks := ParseText(diffText).value.hunks;
    ParserOutputIsParsed(diffText);
    PatchForPrintable(Discard, hunks, selection);
    DiscardingKeepsUnselected(hunks, a, b, selection);
    var patch := PatchFor(Discard, hunks, selection);
    if patch == [] {
      assert b[0..] == b;
    } else {
      PrintedPatchParses(Some(path), Some(path), patch);
    }
  }
}
