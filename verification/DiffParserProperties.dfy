/** What every accepted diff satisfies: well-formed hunks that tile the absolute
    line indices, consecutive line numbers, and contents aligned with the lines. */
module DiffParserProperties {
  import opened Text
  import opened Diff
  import opened DiffParsing

  // ---------------------------------------------------------------- line numbers

  /** How many lines of the old file these diff lines cover. */
  function OldSpan(lines: seq<DiffLine>): nat {
    if lines == [] then 0
    else
      var last := lines[|lines| - 1];
      OldSpan(lines[..|lines| - 1]) + if last.kind == Context || last.kind == Delete then 1 else 0
  }

  /** How many lines of the new file these diff lines cover. */
  function NewSpan(lines: seq<DiffLine>): nat {
    if lines == [] then 0
    else
      var last := lines[|lines| - 1];
      NewSpan(lines[..|lines| - 1]) + if last.kind == Context || last.kind == Add then 1 else 0
  }

  /** Line `i` carries its place in the diff, and its place in each file it is in. */
  predicate NumberedAt(header: HunkHeader, start: nat, lines: seq<DiffLine>, i: nat)
    requires i < |lines|
  {
    && WellFormedLine(lines[i])
    && lines[i].originalLineNumber == start + i
    && lines[i].oldLineNumber ==
       (if lines[i].kind == Add then None else Some(header.oldStartLine + OldSpan(lines[..i])))
    && lines[i].newLineNumber ==
       (if lines[i].kind == Delete then None else Some(header.newStartLine + NewSpan(lines[..i])))
  }

  predicate Numbered(header: HunkHeader, start: nat, lines: seq<DiffLine>) {
    && lines != [] && lines[0].kind == Hunk
    && forall i :: 1 <= i < |lines| ==> NumberedAt(header, start, lines, i)
  }

  function CountersAfter(header: HunkHeader, start: nat, lines: seq<DiffLine>): Counters
    requires lines != []
  {
    Counters(header.oldStartLine + OldSpan(lines), header.newStartLine + NewSpan(lines), start + |lines| - 1)
  }

  lemma MakeLineNumbered(header: HunkHeader, start: nat, lines: seq<DiffLine>, text: string)
    requires Numbered(header, start, lines)
    requires IsBodyLine(text) && text[0] != '\\'
    ensures var n := CountersAfter(header, start, lines); var more := lines + [MakeLine(text, n)];
            Numbered(header, start, more) && Advance(text[0], n) == CountersAfter(header, start, more)
  {
    var n := CountersAfter(header, start, lines);
    var more := lines + [MakeLine(text, n)];
    assert more[..|lines|] == lines;
    forall i | 1 <= i < |more|
      ensures NumberedAt(header, start, more, i)
    {
      if i < |lines| {
        assert NumberedAt(header, start, lines, i);
        assert more[..i] == lines[..i];
      }
    }
  }

  lemma FlagLastNumbered(header: HunkHeader, start: nat, lines: seq<DiffLine>)
    requires Numbered(header, start, lines)
    ensures Numbered(header, start, FlagLast(lines))
    ensures CountersAfter(header, start, FlagLast(lines)) == CountersAfter(header, start, lines)
  {
    var flagged := FlagLast(lines);
    assert flagged[..|lines| - 1] == lines[..|lines| - 1];
    forall i | 1 <= i < |flagged|
      ensures NumberedAt(header, start, flagged, i)
    {
      assert NumberedAt(header, start, lines, i);
      assert flagged[..i] == lines[..i];
    }
  }

  lemma {:induction false} ReadBodyNumbers(header: HunkHeader, start: nat, pending: seq<string>, lines: seq<DiffLine>)
    requires Numbered(header, start, lines)
    ensures var r := ReadBody(pending, lines, CountersAfter(header, start, lines));
            r.Success? ==> Numbered(header, start, r.value.0)
    decreases |pending|
  {
    var n := CountersAfter(header, start, lines);
    if pending != [] && IsBodyLine(pending[0]) {
      if pending[0][0] == '\\' {
        FlagLastNumbered(header, start, lines);
        ReadBodyNumbers(header, start, pending[1..], FlagLast(lines));
      } else {
        MakeLineNumbered(header, start, lines, pending[0]);
        ReadBodyNumbers(header, start, pending[1..], lines + [MakeLine(pending[0], n)]);
      }
    }
  }

  // ---------------------------------------------------------------- tiling

  /** The hunks cover the absolute indices from `at` on without gap or overlap. */
  predicate Tiles(hunks: seq<DiffHunk>, at: nat) {
    hunks == [] ||
    (&& hunks[0].unifiedDiffStart == at
     && hunks[0].unifiedDiffEnd == at + |hunks[0].lines| - 1
     && Tiles(hunks[1..], at + |hunks[0].lines|))
  }

  predicate NumberedHunk(h: DiffHunk) {
    WellFormedHunk(h) && Numbered(h.header, h.unifiedDiffStart, h.lines)
  }

  lemma NumberedLinesWellFormed(header: HunkHeader, start: nat, lines: seq<DiffLine>)
    requires Numbered(header, start, lines)
    ensures forall i :: 1 <= i < |lines| ==> WellFormedLine(lines[i])
  {
    forall i | 1 <= i < |lines|
      ensures WellFormedLine(lines[i])
    {
      assert NumberedAt(header, start, lines, i);
    }
  }

  lemma ReadHunkNumbers(pending: seq<string>, consumed: nat)
    ensures var r := ReadHunk(pending, consumed);
            r.Success? ==> NumberedHunk(r.value.0)
  {
    hide ParseHunkHeader;
    if pending != [] && pending[0] != "" {
      var header := ParseHunkHeader(pending[0]);
      if header.Success? {
        var lines := [HeaderLine(pending[0])];
        assert lines[..0] == [] && OldSpan([]) == 0 && NewSpan([]) == 0;
        assert OldSpan(lines) == OldSpan(lines[..0]) && NewSpan(lines) == NewSpan(lines[..0]);
        assert CountersAfter(header.value, consumed, lines) == StartCounters(header.value, consumed);
        ReadBodyNumbers(header.value, consumed, pending[1..], lines);
        var body := ReadBody(pending[1..], lines, StartCounters(header.value, consumed));
        if body.Success? {
          NumberedLinesWellFormed(header.value, consumed, body.value.0);
        }
      }
    }
  }

  lemma {:induction false} ReadHunksTile(pending: seq<string>, consumed: nat)
    ensures var r := ReadHunks(pending, consumed);
            r.Success? ==> r.value != [] && Tiles(r.value, consumed) && forall h :: h in r.value ==> NumberedHunk(h)
    decreases |pending|
  {
    hide ReadHunk, NumberedHunk;
    var r := ReadHunk(pending, consumed);
    ReadHunkNumbers(pending, consumed);
    ReadHunkTiles(pending, consumed);
    if r.Success? && r.value.1 != [] {
      ReadHunksTile(r.value.1, consumed + |r.value.0.lines|);
    }
  }

  lemma ReadHunkTiles(pending: seq<string>, consumed: nat)
    ensures var r := ReadHunk(pending, consumed);
            r.Success? ==>
              && r.value.0.unifiedDiffStart == consumed
              && r.value.0.unifiedDiffEnd == consumed + |r.value.0.lines| - 1
  {
    hide ParseHunkHeader, ReadBody;
  }

  /** Every accepted diff has well-formed hunks that tile the indices from 0, with
      line numbers running consecutively from the starts in each hunk header. */
  lemma AcceptedDiffsTile(text: string)
    ensures var r := ParseText(text);
            r.Success? ==>
              && Tiles(r.value.hunks, 0)
              && WellFormedHunks(r.value.hunks)
              && forall h :: h in r.value.hunks ==> NumberedHunk(h)
  {
    hide ReadHunks, RemoveAll, Join, Lines;
    var lines := Lines(text);
    ReadHunksTile(lines[ScanHeader(lines).1..], 0);
  }

  // ---------------------------------------------------------------- contents

  /** Every line that starts with a backslash is the marker as git writes it in English. */
  predicate LiteralMarkers(lines: seq<string>) {
    forall i :: 0 <= i < |lines| ==> LiteralIfMarker(lines[i])
  }

  predicate LiteralIfMarker(line: string) {
    line != "" && line[0] == '\\' ==> line == NoNewlineMarker
  }

  function WithoutMarkers(lines: seq<string>): seq<string> {
    if lines == [] then []
    else (if lines[0] == NoNewlineMarker then [] else [lines[0]]) + WithoutMarkers(lines[1..])
  }

  function Texts(lines: seq<DiffLine>): seq<string> {
    seq(|lines|, i requires 0 <= i < |lines| => lines[i].text)
  }

  /** The texts of all lines of a diff, hunk after hunk. */
  function AllTexts(hunks: seq<DiffHunk>): seq<string> {
    if hunks == [] then [] else Texts(hunks[0].lines) + AllTexts(hunks[1..])
  }

  lemma MarkerStart()
    ensures NoNewlineMarker != "" && NoNewlineMarker[0] == '\\' && '\n' !in NoNewlineMarker
  {
  }

  lemma MakeLineText(text: string, n: Counters)
    requires text != ""
    ensures MakeLine(text, n).text == text
  {
  }

  lemma {:induction false} ReadBodyTexts(pending: seq<string>, lines: seq<DiffLine>, n: Counters)
    requires lines != [] && LiteralMarkers(pending)
    ensures var r := ReadBody(pending, lines, n);
            r.Success? ==>
              && Texts(r.value.0) + WithoutMarkers(r.value.1) == Texts(lines) + WithoutMarkers(pending)
              && LiteralMarkers(r.value.1)
    decreases |pending|
  {
    hide MakeLine, Advance, Texts, FlagLast, WithoutMarkers, LiteralIfMarker;
    if pending != [] && IsBodyLine(pending[0]) {
      assert LiteralIfMarker(pending[0]);
      TextsStep(pending, lines, n);
      if pending[0][0] == '\\' {
        ReadBodyTexts(pending[1..], FlagLast(lines), n);
      } else {
        ReadBodyTexts(pending[1..], lines + [MakeLine(pending[0], n)], Advance(pending[0][0], n));
      }
    }
  }

  lemma TextsStep(pending: seq<string>, lines: seq<DiffLine>, n: Counters)
    requires lines != [] && pending != [] && IsBodyLine(pending[0]) && LiteralIfMarker(pending[0])
    ensures Texts(lines) + WithoutMarkers(pending) ==
            Texts(if pending[0][0] == '\\' then FlagLast(lines) else lines + [MakeLine(pending[0], n)])
            + WithoutMarkers(pending[1..])
  {
    hide MakeLine, NoNewlineMarker;
    MarkerStart();
    if pending[0][0] == '\\' {
      assert Texts(FlagLast(lines)) == Texts(lines);
      assert WithoutMarkers(pending) == WithoutMarkers(pending[1..]);
    } else {
      var line := MakeLine(pending[0], n);
      MakeLineText(pending[0], n);
      assert Texts(lines + [line]) == Texts(lines) + [pending[0]];
      assert WithoutMarkers(pending) == [pending[0]] + WithoutMarkers(pending[1..]);
    }
  }

  lemma HeaderIsNoMarker(line: string)
    ensures ParseHunkHeader(line).Success? ==> line != "" && line[0] == '@' && line != NoNewlineMarker
  {
    hide MatchRange;
    assert NoNewlineMarker[0] == '\\';
    if StartsWith(line, "@@ -") {
      assert line[0] == "@@ -"[0];
    }
  }

  lemma ReadHunkTexts(pending: seq<string>, consumed: nat)
    requires LiteralMarkers(pending)
    ensures var r := ReadHunk(pending, consumed);
            r.Success? ==>
              && Texts(r.value.0.lines) + WithoutMarkers(r.value.1) == WithoutMarkers(pending)
              && LiteralMarkers(r.value.1)
              && pending != [] && pending[0] != NoNewlineMarker
  {
    hide ParseHunkHeader, NoNewlineMarker;
    if pending != [] && pending[0] != "" {
      HeaderIsNoMarker(pending[0]);
      var header := ParseHunkHeader(pending[0]);
      if header.Success? {
        var lines := [HeaderLine(pending[0])];
        ReadBodyTexts(pending[1..], lines, StartCounters(header.value, consumed));
        assert Texts(lines) == [pending[0]];
      }
    }
  }

  lemma {:induction false} ReadHunksTexts(pending: seq<string>, consumed: nat)
    requires LiteralMarkers(pending)
    ensures var r := ReadHunks(pending, consumed);
            r.Success? ==>
              && AllTexts(r.value) == WithoutMarkers(pending)
              && pending != [] && pending[0] != NoNewlineMarker
    decreases |pending|
  {
    hide ReadHunk, NoNewlineMarker, LiteralMarkers;
    var r := ReadHunk(pending, consumed);
    ReadHunkTexts(pending, consumed);
    if r.Success? {
      var (hunk, rest) := r.value;
      if rest != [] {
        ReadHunksTexts(rest, consumed + |hunk.lines|);
        var more := ReadHunks(rest, consumed + |hunk.lines|);
        if more.Success? {
          assert ([hunk] + more.value)[1..] == more.value;
        }
      } else {
        assert AllTexts([hunk]) == Texts(hunk.lines) + [];
      }
    }
  }

  /** The lines with a newline before each. */
  function NewlineLed(lines: seq<string>): string {
    if lines == [] then "" else "\n" + lines[0] + NewlineLed(lines[1..])
  }

  lemma {:induction false} JoinIsNewlineLed(lines: seq<string>)
    requires lines != []
    ensures Join(lines, '\n') == lines[0] + NewlineLed(lines[1..])
  {
    if |lines| > 1 {
      JoinIsNewlineLed(lines[1..]);
    }
  }

  /** Removing a pattern that starts with a newline passes over newline-free text. */
  lemma {:induction false} RemoveAllSkips(line: string, rest: string, pattern: string)
    requires pattern != "" && pattern[0] == '\n' && '\n' !in line
    ensures RemoveAll(line + rest, pattern) == line + RemoveAll(rest, pattern)
  {
    if line == "" {
      assert line + rest == rest;
    } else {
      assert (line + rest)[0] == line[0] && line[0] in line;
      assert (line + rest)[1..] == line[1..] + rest;
      RemoveAllSkips(line[1..], rest, pattern);
    }
  }

  predicate NewlineFree(lines: seq<string>) {
    forall l :: l in lines ==> '\n' !in l
  }

  lemma MarkerAtFront(line: string, rest: seq<string>)
    requires '\n' !in line && LiteralIfMarker(line)
    ensures StartsWith("\n" + line + NewlineLed(rest), "\n" + NoNewlineMarker) <==> line == NoNewlineMarker
  {
    hide NoNewlineMarker;
    MarkerStart();
    var s, pattern := "\n" + line + NewlineLed(rest), "\n" + NoNewlineMarker;
    if StartsWith(s, pattern) {
      assert s[1] == pattern[1];
      assert line != "" ==> s[1] == line[0];
    }
  }

  lemma {:induction false} RemoveAllMarkers(lines: seq<string>)
    requires NewlineFree(lines) && LiteralMarkers(lines)
    ensures RemoveAll(NewlineLed(lines), "\n" + NoNewlineMarker) == NewlineLed(WithoutMarkers(lines))
  {
    hide NoNewlineMarker, RemoveAll;
    if lines == [] {
      RemoveAllEmpty("\n" + NoNewlineMarker);
    } else {
      var line, rest := lines[0], NewlineLed(lines[1..]);
      assert LiteralIfMarker(line) && line in lines;
      MarkerAtFront(line, lines[1..]);
      RemoveAllMarkers(lines[1..]);
      RemoveOneLine(line, rest);
      if line == NoNewlineMarker {
        assert WithoutMarkers(lines) == [] + WithoutMarkers(lines[1..]) == WithoutMarkers(lines[1..]);
      } else {
        assert WithoutMarkers(lines) == [line] + WithoutMarkers(lines[1..]);
        assert WithoutMarkers(lines)[1..] == WithoutMarkers(lines[1..]);
      }
    }
  }

  lemma RemoveAllEmpty(pattern: string)
    requires pattern != ""
    ensures RemoveAll("", pattern) == ""
  {
  }

  lemma RemoveOneLine(line: string, rest: string)
    requires '\n' !in line
    requires StartsWith("\n" + line + rest, "\n" + NoNewlineMarker) <==> line == NoNewlineMarker
    ensures RemoveAll("\n" + line + rest, "\n" + NoNewlineMarker) ==
            (if line == NoNewlineMarker then "" else "\n" + line) + RemoveAll(rest, "\n" + NoNewlineMarker)
  {
    hide NoNewlineMarker;
    var s, pattern := "\n" + line + rest, "\n" + NoNewlineMarker;
    if line == NoNewlineMarker {
      assert s[|pattern|..] == rest;
    } else {
      assert s[1..] == line + rest;
      RemoveAllSkips(line, rest, pattern);
    }
  }

  lemma {:induction false} LinesNewlineFree(s: string)
    ensures NewlineFree(Lines(s))
    decreases |s|
  {
    hide FirstLine;
    if s != "" {
      LinesNewlineFree(AfterLine(s));
    }
  }

  lemma {:induction false} AllTextsAt(hunks: seq<DiffHunk>, at: nat, k: nat, i: nat)
    requires Tiles(hunks, at) && k < |hunks| && i < |hunks[k].lines|
    ensures at <= hunks[k].unifiedDiffStart
    ensures hunks[k].unifiedDiffStart + i - at < |AllTexts(hunks)|
    ensures AllTexts(hunks)[hunks[k].unifiedDiffStart + i - at] == hunks[k].lines[i].text
  {
    if k == 0 {
      assert AllTexts(hunks)[i] == Texts(hunks[0].lines)[i];
    } else {
      AllTextsAt(hunks[1..], at + |hunks[0].lines|, k - 1, i);
    }
  }

  lemma {:induction false} WithoutMarkersFree(lines: seq<string>)
    requires NewlineFree(lines)
    ensures NewlineFree(WithoutMarkers(lines))
  {
    if lines != [] {
      WithoutMarkersFree(lines[1..]);
    }
  }

  /** Line `unifiedDiffStart + i` of the contents is line `i` of the hunk. */
  predicate AlignedAt(contents: seq<string>, h: DiffHunk, i: nat)
    requires i < |h.lines|
  {
    h.unifiedDiffStart + i < |contents| && contents[h.unifiedDiffStart + i] == h.lines[i].text
  }

  predicate Aligned(contents: seq<string>, hunks: seq<DiffHunk>) {
    forall k, i :: 0 <= k < |hunks| && 0 <= i < |hunks[k].lines| ==> AlignedAt(contents, hunks[k], i)
  }

  /** When the markers are the literal one, the contents of an accepted text diff
      are its lines: line `unifiedDiffStart + i` is `lines[i].text`, for every hunk. */
  lemma ContentsAligned(text: string)
    ensures var r := ParseText(text);
            r.Success? && r.value.hunks != [] && LiteralMarkers(Lines(text)[ScanHeader(Lines(text)).1..]) ==>
              var contents := Split(r.value.contents, '\n');
              && contents == AllTexts(r.value.hunks)
              && Aligned(contents, r.value.hunks)
  {
    hide ReadHunks, NoNewlineMarker, RemoveAll, Join, Lines, LiteralMarkers;
    var r, lines := ParseText(text), Lines(text);
    var body := lines[ScanHeader(lines).1..];
    if r.Success? && r.value.hunks != [] && LiteralMarkers(body) {
      LinesNewlineFree(text);
      ReadHunksTexts(body, 0);
      ReadHunksTile(body, 0);
      ContentsAre(body);
      WithoutMarkersFree(body);
      SplitJoin(WithoutMarkers(body), '\n');
      assert Split(r.value.contents, '\n') == AllTexts(r.value.hunks);
      TilesAlign(r.value.hunks);
    }
  }

  lemma TilesAlign(hunks: seq<DiffHunk>)
    requires Tiles(hunks, 0)
    ensures Aligned(AllTexts(hunks), hunks)
  {
    hide Tiles, AllTexts;
    forall k, i | 0 <= k < |hunks| && 0 <= i < |hunks[k].lines|
      ensures AlignedAt(AllTexts(hunks), hunks[k], i)
    {
      AllTextsAt(hunks, 0, k, i);
    }
  }

  lemma ContentsAre(body: seq<string>)
    requires NewlineFree(body) && LiteralMarkers(body)
    requires body != [] && body[0] != NoNewlineMarker
    ensures WithoutMarkers(body) != []
    ensures RemoveAll(Join(body, '\n'), "\n" + NoNewlineMarker) == Join(WithoutMarkers(body), '\n')
  {
    hide NoNewlineMarker, RemoveAll, Join;
    JoinIsNewlineLed(body);
    RemoveAllMarkers(body[1..]);
    RemoveAllSkips(body[0], NewlineLed(body[1..]), "\n" + NoNewlineMarker);
    JoinIsNewlineLed(WithoutMarkers(body));
    assert WithoutMarkers(body)[1..] == WithoutMarkers(body[1..]);
  }
}
