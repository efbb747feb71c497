/** Which diffs the parser accepts, and what it takes from their lines: hunk headers, the
    diff header, and the lines between. */
module DiffParserAcceptance {
  import opened Text
  import opened Diff
  import opened DiffParsing

  // ---------------------------------------------------------------- hunk headers

  predicate IsNumber(s: string, n: nat) {
    s != "" && AllDigits(s) && ParseNat(s) == n
  }

  /** A range of a hunk header: a start, or a start and a count; a missing count is 1. */
  ghost predicate RangeText(s: string, start: nat, count: nat) {
    || (IsNumber(s, start) && count == 1)
    || exists d, e :: IsNumber(d, start) && IsNumber(e, count) && s == d + "," + e
  }

  function HeaderForm(before: string, after: string): string {
    "@@ -" + before + " +" + after + " @@"
  }

  /** The line is a hunk header with these numbers. Anything may follow the second `@@`. */
  ghost predicate HeaderDescribes(line: string, h: HunkHeader) {
    exists before, after ::
      && RangeText(before, h.oldStartLine, h.oldLineCount) && RangeText(after, h.newStartLine, h.newLineCount)
      && StartsWith(line, HeaderForm(before, after))
  }

  lemma MatchStart(d: string, rest: string)
    requires d != "" && AllDigits(d) && rest != "" && rest[0] == ' '
    ensures MatchRange(d + rest) == Some((ParseNat(d), 1, rest))
  {
    hide DigitPrefix, ParseNat;
    DigitPrefixOf(d, rest);
  }

  lemma MatchStartCount(d: string, e: string, rest: string)
    requires d != "" && AllDigits(d) && e != "" && AllDigits(e) && rest != "" && rest[0] == ' '
    ensures MatchRange(d + "," + e + rest) == Some((ParseNat(d), ParseNat(e), rest))
  {
    hide DigitPrefix, ParseNat;
    var tail := "," + (e + rest);
    assert d + "," + e + rest == d + tail;
    DigitPrefixOf(d, tail);
    assert tail[1..] == e + rest;
    DigitPrefixOf(e, rest);
  }

  lemma RangeMatches(s: string, start: nat, count: nat, rest: string)
    requires RangeText(s, start, count) && rest != "" && rest[0] == ' '
    ensures MatchRange(s + rest) == Some((start, count, rest))
  {
    hide MatchRange, ParseNat;
    if IsNumber(s, start) && count == 1 {
      MatchStart(s, rest);
    } else {
      var d, e :| IsNumber(d, start) && IsNumber(e, count) && s == d + "," + e;
      MatchStartCount(d, e, rest);
    }
  }

  lemma MatchedRange(s: string) returns (r: string)
    requires MatchRange(s).Some?
    ensures var (start, count, rest) := MatchRange(s).value; RangeText(r, start, count) && s == r + rest
  {
    hide DigitPrefix, ParseNat;
    var k := DigitPrefix(s);
    var rest := s[k..];
    assert IsNumber(s[..k], ParseNat(s[..k])) && s == s[..k] + rest;
    if rest == "" || rest[0] != ',' {
      r := s[..k];
    } else {
      var m := DigitPrefix(rest[1..]);
      var e := rest[1..][..m];
      assert IsNumber(e, ParseNat(e));
      r := s[..k] + "," + e;
      assert rest == "," + e + rest[1..][m..];
      assert s == r + rest[1..][m..];
    }
  }

  /** A line is accepted as a hunk header, with its numbers, exactly when it is one. */
  lemma HeaderAcceptedIff(line: string, h: HunkHeader)
    ensures ParseHunkHeader(line) == Success(h) <==> HeaderDescribes(line, h)
  {
    hide RangeText, ParseHunkHeader, HeaderForm;
    if ParseHunkHeader(line) == Success(h) {
      HeaderAccepted(line, h);
    }
    if HeaderDescribes(line, h) {
      var before, after :|
        && RangeText(before, h.oldStartLine, h.oldLineCount) && RangeText(after, h.newStartLine, h.newLineCount)
        && StartsWith(line, HeaderForm(before, after));
      HeaderRead(line, h, before, after);
    }
  }

  lemma HeaderAccepted(line: string, h: HunkHeader)
    requires ParseHunkHeader(line) == Success(h)
    ensures HeaderDescribes(line, h)
  {
    hide MatchRange, RangeText;
    var (oldStart, oldCount, rest) := MatchRange(line[4..]).value;
    var before := MatchedRange(line[4..]);
    var after := MatchedRange(rest[2..]);
    var tail := MatchRange(rest[2..]).value.2;
    assert line == "@@ -" + (before + (" +" + (after + (" @@" + tail[3..]))));
    assert line == HeaderForm(before, after) + tail[3..];
  }

  lemma HeaderRead(line: string, h: HunkHeader, before: string, after: string)
    requires RangeText(before, h.oldStartLine, h.oldLineCount) && RangeText(after, h.newStartLine, h.newLineCount)
    requires StartsWith(line, HeaderForm(before, after))
    ensures ParseHunkHeader(line) == Success(h)
  {
    hide MatchRange, RangeText;
    var end := " @@" + line[|HeaderForm(before, after)|..];
    var middle := " +" + (after + end);
    assert line == HeaderForm(before, after) + line[|HeaderForm(before, after)|..];
    assert line == "@@ -" + (before + middle);
    assert line[4..] == before + middle;
    RangeMatches(before, h.oldStartLine, h.oldLineCount, middle);
    assert middle[2..] == after + end;
    RangeMatches(after, h.newStartLine, h.newLineCount, end);
  }

  // ---------------------------------------------------------------- the diff header

  predicate IsBinaryLine(line: string) {
    "Binary files " <= line && EndsWith(line, "differ")
  }

  predicate IsPlusLine(line: string) {
    "+++" <= line && !IsBinaryLine(line)
  }

  /** What lines can end the header of a diff. */
  predicate EndsHeader(line: string) {
    line == "" || IsBinaryLine(line) || IsPlusLine(line)
  }

  /** The first `n` lines are the header: they go up to the first line that ends it, or are all lines. */
  predicate IsHeader(lines: seq<string>, n: nat) {
    && n <= |lines|
    && (forall i :: 0 <= i < n - 1 ==> !EndsHeader(lines[i]))
    && (n < |lines| ==> n > 0 && EndsHeader(lines[n - 1]))
  }

  lemma {:induction false} ScanIs(lines: seq<string>)
    ensures var (info, n) := ScanHeader(lines);
            && IsHeader(lines, n)
            && (info == BinaryHeader <==> n > 0 && IsBinaryLine(lines[n - 1]))
            && (info == TextHeader <==> n > 0 && IsPlusLine(lines[n - 1]))
  {
    if lines != [] && !EndsHeader(lines[0]) {
      ScanIs(lines[1..]);
      var n := ScanHeader(lines[1..]).1;
      assert forall i :: 0 < i < n + 1 ==> lines[i] == lines[1..][i - 1];
    }
  }

  /** The first lines of a text, joined, are the text up to the end of a line. */
  lemma {:induction false} JoinedLinesAre(text: string, n: nat)
    requires n <= |Lines(text)| && (n == 0 ==> text == "")
    ensures var head := Join(Lines(text)[..n], '\n'); text == head || head + "\n" <= text
    decreases n
  {
    hide FirstLine, AfterLine;
    if n > 0 {
      var lines, rest := Lines(text), AfterLine(text);
      TextIsFirstLine(text);
      if n == 1 {
        assert lines[..1] == [FirstLine(text)];
      } else {
        assert rest != "" && lines[..n][1..] == Lines(rest)[..n - 1];
        JoinedLinesAre(rest, n - 1);
        assert Join(lines[..n], '\n') == FirstLine(text) + ['\n'] + Join(Lines(rest)[..n - 1], '\n');
      }
    }
  }

  lemma TextIsFirstLine(text: string)
    ensures (text == FirstLine(text) && AfterLine(text) == "") || text == FirstLine(text) + "\n" + AfterLine(text)
  {
  }

  /** The header of a parsed diff is its text up to the end of the first line that is empty,
      marks a binary diff or starts with `+++`. The diff is binary exactly when that line says
      so; it has hunks exactly when that line is a `+++` line. */
  lemma ParsedHeader(text: string) returns (n: nat)
    ensures IsHeader(Lines(text), n)
    ensures var lines, r := Lines(text), ParseText(text);
            && (r.Success? ==>
                  && r.value.header == Join(lines[..n], '\n')
                  && (text == r.value.header || r.value.header + "\n" <= text)
                  && (r.value.isBinary <==> n > 0 && IsBinaryLine(lines[n - 1]))
                  && (r.value.hunks != [] <==> n > 0 && IsPlusLine(lines[n - 1]))
                  && (r.value.hunks == [] ==> r.value.contents == ""))
            && (r.Failure? ==> n > 0 && IsPlusLine(lines[n - 1]))
            && (n > 0 && IsPlusLine(lines[n - 1]) ==> r.Success? == ReadHunks(lines[n..], 0).Success?)
            && (n > 0 && IsPlusLine(lines[n - 1]) && r.Success? ==> r.value.hunks == ReadHunks(lines[n..], 0).value)
  {
    hide Lines, ScanHeader, ReadHunks, RemoveAll, Join, NoNewlineMarker, IsHeader, IsBinaryLine, IsPlusLine;
    var lines := Lines(text);
    n := ScanHeader(lines).1;
    ScanIs(lines);
    SomeHeader(text, n);
    JoinedLinesAre(text, n);
    SomeHunk(lines[n..], 0);
  }

  lemma SomeHeader(text: string, n: nat)
    requires IsHeader(Lines(text), n)
    ensures n == 0 ==> text == ""
  {
  }

  lemma SomeHunk(pending: seq<string>, consumed: nat)
    ensures var r := ReadHunks(pending, consumed); r.Success? ==> r.value != []
  {
    hide ReadHunk;
  }

  // ---------------------------------------------------------------- the lines of the hunks

  predicate IsMarker(line: string) {
    line != "" && line[0] == '\\'
  }

  predicate IsContent(line: string) {
    line != "" && (line[0] == ' ' || line[0] == '+' || line[0] == '-')
  }

  ghost predicate IsHunkHeader(line: string) {
    exists h :: HeaderDescribes(line, h)
  }

  /** The lines go on with content lines, markers of at least twelve characters, and hunks
      of which each starts with a header and has a content line; `open` says that a hunk
      still lacks its content line. */
  ghost predicate GoesOn(lines: seq<string>, open: bool) {
    if lines == [] then !open
    else if IsContent(lines[0]) then GoesOn(lines[1..], false)
    else if IsMarker(lines[0]) then |lines[0]| >= 12 && GoesOn(lines[1..], open)
    else !open && IsHunkHeader(lines[0]) && GoesOn(lines[1..], true)
  }

  /** One hunk or more. */
  ghost predicate AreHunks(lines: seq<string>) {
    lines != [] && IsHunkHeader(lines[0]) && GoesOn(lines[1..], true)
  }

  lemma HunkHeaderAccepted(line: string)
    ensures ParseHunkHeader(line).Success? <==> IsHunkHeader(line)
    ensures IsHunkHeader(line) ==> line != "" && line[0] == '@'
  {
    hide ParseHunkHeader, HeaderDescribes;
    var r := ParseHunkHeader(line);
    if r.Success? {
      HeaderAcceptedIff(line, r.value);
    }
    if IsHunkHeader(line) {
      var h :| HeaderDescribes(line, h);
      HeaderAcceptedIff(line, h);
      HeaderStart(line, h);
    }
  }

  lemma HeaderStart(line: string, h: HunkHeader)
    requires HeaderDescribes(line, h)
    ensures line != "" && line[0] == '@'
  {
    hide RangeText;
    var before, after :|
      && RangeText(before, h.oldStartLine, h.oldLineCount) && RangeText(after, h.newStartLine, h.newLineCount)
      && StartsWith(line, HeaderForm(before, after));
    assert HeaderForm(before, after)[0] == '@';
  }

  /** A hunk's body is read to its end, and what follows is then hunks, exactly when the
      lines go on so. */
  lemma {:induction false} BodyAcceptedIff(pending: seq<string>, lines: seq<DiffLine>, n: Counters)
    requires lines != []
    ensures var r := ReadBody(pending, lines, n);
            GoesOn(pending, |lines| == 1) <==>
            r.Success? && |r.value.0| > 1 && (r.value.1 == [] || AreHunks(r.value.1))
    decreases |pending|
  {
    hide IsHunkHeader, MakeLine, Advance, FlagLast;
    if pending != [] {
      HunkHeaderAccepted(pending[0]);
      if IsBodyLine(pending[0]) {
        if pending[0][0] == '\\' {
          BodyAcceptedIff(pending[1..], FlagLast(lines), n);
        } else {
          BodyAcceptedIff(pending[1..], lines + [MakeLine(pending[0], n)], Advance(pending[0][0], n));
        }
      }
    }
  }

  /** The lines after the diff header are accepted exactly when they are hunks. */
  lemma {:induction false} HunksAcceptedIff(pending: seq<string>, consumed: nat)
    ensures ReadHunks(pending, consumed).Success? <==> AreHunks(pending)
    decreases |pending|
  {
    hide AreHunks, ReadHunk;
    HunkAcceptedIff(pending, consumed);
    var r := ReadHunk(pending, consumed);
    if r.Success? && r.value.1 != [] {
      HunksAcceptedIff(r.value.1, consumed + |r.value.0.lines|);
    }
  }

  lemma HunkAcceptedIff(pending: seq<string>, consumed: nat)
    ensures var r := ReadHunk(pending, consumed);
            AreHunks(pending) <==> r.Success? && (r.value.1 == [] || AreHunks(r.value.1))
  {
    hide IsHunkHeader, GoesOn, ReadBody, ParseHunkHeader;
    if pending != [] {
      HunkHeaderAccepted(pending[0]);
      var header := ParseHunkHeader(pending[0]);
      if header.Success? {
        BodyAcceptedIff(pending[1..], [HeaderLine(pending[0])], StartCounters(header.value, consumed));
      }
    }
  }

  /** What the lines of hunks hold: each line that is no marker, and whether a marker follows. */
  function Marked(lines: seq<string>): seq<(string, bool)> {
    if lines == [] then []
    else if IsMarker(lines[0]) then Marked(lines[1..])
    else [(lines[0], |lines| > 1 && IsMarker(lines[1]))] + Marked(lines[1..])
  }

  function TextsAndFlags(lines: seq<DiffLine>): seq<(string, bool)> {
    if lines == [] then []
    else
      var last := lines[|lines| - 1];
      TextsAndFlags(lines[..|lines| - 1]) + [(last.text, last.noTrailingNewLine)]
  }

  function AllTextsAndFlags(hunks: seq<DiffHunk>): seq<(string, bool)> {
    if hunks == [] then [] else TextsAndFlags(hunks[0].lines) + AllTextsAndFlags(hunks[1..])
  }

  /** What lines hold of which the last may still be flagged by a marker that is pending. */
  function WithPending(lines: seq<DiffLine>, pending: seq<string>): seq<(string, bool)>
    requires lines != []
  {
    var last := lines[|lines| - 1];
    TextsAndFlags(lines[..|lines| - 1])
    + [(last.text, last.noTrailingNewLine || (pending != [] && IsMarker(pending[0])))] + Marked(pending)
  }

  lemma WithPendingStep(lines: seq<DiffLine>, pending: seq<string>, n: Counters)
    requires lines != [] && pending != [] && IsBodyLine(pending[0])
    ensures WithPending(lines, pending) ==
            WithPending(if IsMarker(pending[0]) then FlagLast(lines) else lines + [MakeLine(pending[0], n)], pending[1..])
  {
    hide TextsAndFlags;
    var last := lines[|lines| - 1];
    if IsMarker(pending[0]) {
      assert FlagLast(lines)[..|lines| - 1] == lines[..|lines| - 1];
    } else {
      var more := lines + [MakeLine(pending[0], n)];
      assert more[..|lines|] == lines;
      assert Marked(pending) == [(pending[0], |pending| > 1 && IsMarker(pending[1]))] + Marked(pending[1..]);
      assert TextsAndFlags(lines) == TextsAndFlags(lines[..|lines| - 1]) + [(last.text, last.noTrailingNewLine)] by {
        TextsAndFlagsLast(lines);
      }
    }
  }

  lemma TextsAndFlagsLast(lines: seq<DiffLine>)
    requires lines != []
    ensures var last := lines[|lines| - 1];
            TextsAndFlags(lines) == TextsAndFlags(lines[..|lines| - 1]) + [(last.text, last.noTrailingNewLine)]
  {
  }

  lemma {:induction false} BodyHolds(pending: seq<string>, lines: seq<DiffLine>, n: Counters)
    requires lines != []
    ensures var r := ReadBody(pending, lines, n);
            r.Success? ==> WithPending(lines, pending) == TextsAndFlags(r.value.0) + Marked(r.value.1)
    decreases |pending|
  {
    hide MakeLine, Advance, TextsAndFlags, Marked, WithPending, FlagLast;
    if pending == [] || !IsBodyLine(pending[0]) {
      NothingPending(pending, lines);
    } else {
      WithPendingStep(lines, pending, n);
      if pending[0][0] == '\\' {
        BodyHolds(pending[1..], FlagLast(lines), n);
      } else {
        BodyHolds(pending[1..], lines + [MakeLine(pending[0], n)], Advance(pending[0][0], n));
      }
    }
  }

  lemma NothingPending(pending: seq<string>, lines: seq<DiffLine>)
    requires lines != [] && (pending == [] || !IsBodyLine(pending[0]))
    ensures WithPending(lines, pending) == TextsAndFlags(lines) + Marked(pending)
  {
    hide Marked;
  }

  /** The header of a hunk has the numbers that its first line gives. */
  ghost predicate HasItsHeader(h: DiffHunk) {
    h.lines != [] && HeaderDescribes(h.lines[0].text, h.header)
  }

  lemma {:induction false} BodyKeepsHead(pending: seq<string>, lines: seq<DiffLine>, n: Counters)
    requires lines != []
    ensures var r := ReadBody(pending, lines, n); r.Success? ==> r.value.0 != [] && r.value.0[0].text == lines[0].text
    decreases |pending|
  {
    hide MakeLine, Advance;
    if pending != [] && IsBodyLine(pending[0]) {
      if pending[0][0] == '\\' {
        BodyKeepsHead(pending[1..], FlagLast(lines), n);
      } else {
        BodyKeepsHead(pending[1..], lines + [MakeLine(pending[0], n)], Advance(pending[0][0], n));
      }
    }
  }

  lemma HunkHolds(pending: seq<string>, consumed: nat)
    ensures var r := ReadHunk(pending, consumed);
            r.Success? ==>
              && HasItsHeader(r.value.0)
              && TextsAndFlags(r.value.0.lines) + Marked(r.value.1) == Marked(pending)
  {
    hide HeaderDescribes, ParseHunkHeader, TextsAndFlags, Marked;
    if pending != [] && ParseHunkHeader(pending[0]).Success? {
      var header, lines := ParseHunkHeader(pending[0]).value, [HeaderLine(pending[0])];
      HeaderAcceptedIff(pending[0], header);
      HunkHeaderAccepted(pending[0]);
      BodyHolds(pending[1..], lines, StartCounters(header, consumed));
      BodyKeepsHead(pending[1..], lines, StartCounters(header, consumed));
      HeaderPending(pending);
    }
  }

  lemma HeaderPending(pending: seq<string>)
    requires pending != [] && pending[0] != "" && pending[0][0] == '@'
    ensures WithPending([HeaderLine(pending[0])], pending[1..]) == Marked(pending)
  {
    assert [HeaderLine(pending[0])][..0] == [] && TextsAndFlags([]) == [];
  }

  lemma {:induction false} HunksHold(pending: seq<string>, consumed: nat)
    ensures var r := ReadHunks(pending, consumed);
            r.Success? ==> AllTextsAndFlags(r.value) == Marked(pending) && forall h :: h in r.value ==> HasItsHeader(h)
    decreases |pending|
  {
    hide ReadHunk, TextsAndFlags, Marked, HasItsHeader;
    var r := ReadHunk(pending, consumed);
    HunkHolds(pending, consumed);
    if r.Success? {
      var (hunk, rest) := r.value;
      if rest == [] {
        assert Marked(rest) == [] by {
          NothingMarked();
        }
        assert AllTextsAndFlags([hunk]) == TextsAndFlags(hunk.lines) + [];
      } else {
        HunksHold(rest, consumed + |hunk.lines|);
        var more := ReadHunks(rest, consumed + |hunk.lines|);
        if more.Success? {
          assert ([hunk] + more.value)[1..] == more.value;
        }
      }
    }
  }

  lemma NothingMarked()
    ensures Marked([]) == []
  {
  }

  /** A diff is accepted exactly when its header does not end in a `+++` line, or what
      follows that line is one hunk or more. The hunks then hold exactly the lines that
      follow, without the markers, each flagged exactly when a marker follows it, and
      each hunk has the numbers its header line gives. */
  lemma AcceptedIff(text: string) returns (n: nat)
    ensures IsHeader(Lines(text), n)
    ensures var lines, r := Lines(text), ParseText(text); var hasHunks := n > 0 && IsPlusLine(lines[n - 1]);
            && (r.Success? <==> !hasHunks || AreHunks(lines[n..]))
            && (r.Success? && hasHunks ==>
                  && AllTextsAndFlags(r.value.hunks) == Marked(lines[n..])
                  && forall h :: h in r.value.hunks ==> HasItsHeader(h))
  {
    hide Lines, ParseText, ReadHunks, Join, IsPlusLine, IsBinaryLine, AreHunks, HasItsHeader, Marked;
    n := ParsedHeader(text);
    HunksAcceptedIff(Lines(text)[n..], 0);
    HunksHold(Lines(text)[n..], 0);
  }
}
