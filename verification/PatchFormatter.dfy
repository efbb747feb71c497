/** Formatting a patch for a selection of a diff's lines (app/src/lib/patch-formatter.ts).
    A patch is described as a value, `seq<PatchHunk>`, and by its printed text; the
    methods build the text, and are proved to print the described patch. */
module PatchFormatter {
  import opened Text
  import opened Diff

  // ---------------------------------------------------------------- patches and their text

  /** A line of a patch: its type, its text with the type character, its marker. */
  datatype PatchLine = PatchLine(kind: LineType, text: string, noNewline: bool)

  datatype PatchHunk = PatchHunk(oldStart: nat, oldCount: nat, newStart: nat, newCount: nat, heading: string, body: seq<PatchLine>)

  function PrintLine(l: PatchLine): string {
    l.text + "\n" + if l.noNewline then NoNewlineMarker + "\n" else ""
  }

  function PrintBody(body: seq<PatchLine>): string {
    if body == [] then "" else PrintLine(body[0]) + PrintBody(body[1..])
  }

  function FormatRange(start: nat, count: nat): string {
    if count == 1 then NatToString(start) else NatToString(start) + "," + NatToString(count)
  }

  /** The hunk header, without its section heading and newline. */
  function HunkHeaderText(oldStart: nat, oldCount: nat, newStart: nat, newCount: nat): string {
    "@@ -" + FormatRange(oldStart, oldCount) + " +" + FormatRange(newStart, newCount) + " @@"
  }

  /** A section heading, where a missing one is empty. */
  function HeadingText(heading: string): string {
    if heading == "" then "" else " " + heading
  }

  function FormatHunkHeader(oldStart: nat, oldCount: nat, newStart: nat, newCount: nat, heading: string): string {
    HunkHeaderText(oldStart, oldCount, newStart, newCount) + HeadingText(heading) + "\n"
  }

  function PrintHunk(h: PatchHunk): string {
    FormatHunkHeader(h.oldStart, h.oldCount, h.newStart, h.newCount, h.heading) + PrintBody(h.body)
  }

  function PrintPatch(hunks: seq<PatchHunk>): string {
    if hunks == [] then "" else PrintHunk(hunks[0]) + PrintPatch(hunks[1..])
  }

  /** A path that is missing, or empty, prints as the null device. */
  function FormatPatchHeader(from: Option<string>, to: Option<string>): string {
    var fromPath := if from.Some? && from.value != "" then "a/" + from.value else "/dev/null";
    var toPath := if to.Some? && to.value != "" then "b/" + to.value else "/dev/null";
    "--- " + fromPath + "\n" + "+++ " + toPath + "\n"
  }

  function OldCount(body: seq<PatchLine>): nat {
    if body == [] then 0
    else (if body[0].kind == Context || body[0].kind == Delete then 1 else 0) + OldCount(body[1..])
  }

  function NewCount(body: seq<PatchLine>): nat {
    if body == [] then 0
    else (if body[0].kind == Context || body[0].kind == Add then 1 else 0) + NewCount(body[1..])
  }

  predicate HasChange(body: seq<PatchLine>) {
    body != [] && (body[0].kind == Add || body[0].kind == Delete || HasChange(body[1..]))
  }

  // ---------------------------------------------------------------- files

  datatype FileStatus = New | Modified | Deleted | Copied | Renamed | Conflicted | Untracked

  datatype WorkingDirectoryFile = WorkingDirectoryFile(path: string, status: FileStatus, selection: Selection)

  predicate IsNew(status: FileStatus) {
    status == New || status == Untracked
  }

  function FormatPatchHeaderForFile(file: WorkingDirectoryFile): string {
    if IsNew(file.status) then FormatPatchHeader(None, Some(file.path))
    else FormatPatchHeader(Some(file.path), Some(file.path))
  }

  /** Only the old side of a new or untracked file is the null device; a side that is a file
      names its path. */
  lemma PatchHeaderNames(file: WorkingDirectoryFile)
    requires file.path != ""
    ensures FormatPatchHeaderForFile(file) ==
            (if file.status == New || file.status == Untracked then "--- /dev/null\n" else "--- a/" + file.path + "\n")
            + ("+++ b/" + file.path + "\n")
    ensures FormatPatchHeader(Some(file.path), Some(file.path)) ==
            "--- a/" + file.path + "\n" + ("+++ b/" + file.path + "\n")
  {
    var path := file.path;
    Labelled("--- ", "a/", path);
    Labelled("+++ ", "b/", path);
    TwoHeaderLines("--- " + ("a/" + path), "b/" + path);
    TwoHeaderLines("--- /dev/null", "b/" + path);
  }

  lemma Labelled(marker: string, prefix: string, path: string)
    ensures marker + (prefix + path) == marker + prefix + path
  {
  }

  lemma TwoHeaderLines(first: string, toPath: string)
    ensures first + "\n" + "+++ " + toPath + "\n" == first + "\n" + ("+++ " + toPath + "\n")
  {
  }

  // ---------------------------------------------------------------- partial patches

  /** What a diff line contributes to the patch that applies the selected lines. */
  function PartialLine(isNew: bool, line: DiffLine, selected: bool): seq<PatchLine> {
    match line.kind
    case Hunk => []
    case Context => [PatchLine(Context, line.text, line.noTrailingNewLine)]
    case Add => if selected then [PatchLine(Add, line.text, line.noTrailingNewLine)] else []
    case Delete =>
      if selected then [PatchLine(Delete, line.text, line.noTrailingNewLine)]
      else if isNew then []
      else [PatchLine(Context, " " + Rest1(line.text), line.noTrailingNewLine)]
  }

  /** What a diff line contributes to the patch that takes back the selected lines. */
  function DiscardLine(line: DiffLine, selected: bool): seq<PatchLine> {
    match line.kind
    case Hunk => []
    case Context => [PatchLine(Context, line.text, line.noTrailingNewLine)]
    case Add => [PatchLine(if selected then Delete else Context,
                           (if selected then "-" else " ") + Rest1(line.text), line.noTrailingNewLine)]
    case Delete =>
      if selected then [PatchLine(Add, "+" + Rest1(line.text), line.noTrailingNewLine)] else []
  }

  /** The two patches that can be made of a diff. */
  datatype Direction = Stage(isNew: bool) | Discard

  function LineFor(d: Direction, line: DiffLine, selected: bool): seq<PatchLine> {
    match d
    case Stage(isNew) => PartialLine(isNew, line, selected)
    case Discard => DiscardLine(line, selected)
  }

  /** The patch body for lines whose first has the absolute index `at`. */
  function BodyFor(d: Direction, lines: seq<DiffLine>, at: nat, selection: Selection): seq<PatchLine> {
    if lines == [] then []
    else LineFor(d, lines[0], selection(at)) + BodyFor(d, lines[1..], at + 1, selection)
  }

  /** The patch for one hunk; discarding swaps the roles of the old and new file. */
  function HunkFor(d: Direction, h: DiffHunk, selection: Selection): PatchHunk {
    var body := BodyFor(d, h.lines, h.unifiedDiffStart, selection);
    if d == Discard
    then PatchHunk(h.header.newStartLine, OldCount(body), h.header.oldStartLine, NewCount(body), "", body)
    else PatchHunk(h.header.oldStartLine, OldCount(body), h.header.newStartLine, NewCount(body), "", body)
  }

  /** The patch for a diff: hunks in which nothing is selected are left out. */
  function PatchFor(d: Direction, hunks: seq<DiffHunk>, selection: Selection): seq<PatchHunk> {
    if hunks == [] then []
    else
      var h := HunkFor(d, hunks[0], selection);
      (if HasChange(h.body) then [h] else []) + PatchFor(d, hunks[1..], selection)
  }

  /** For a new file a patch holds nothing but context and selected lines as they are. */
  lemma {:induction false} NewFilesAreNotRewritten(lines: seq<DiffLine>, at: nat, selection: Selection)
    ensures forall l :: l in BodyFor(Stage(true), lines, at, selection) ==>
              exists i :: 0 <= i < |lines| && l == PatchLine(lines[i].kind, lines[i].text, lines[i].noTrailingNewLine)
                          && (lines[i].kind == Context || selection(at + i))
  {
    if lines != [] {
      NewFilesAreNotRewritten(lines[1..], at + 1, selection);
      forall l | l in BodyFor(Stage(true), lines, at, selection)
        ensures exists i :: 0 <= i < |lines| && l == PatchLine(lines[i].kind, lines[i].text, lines[i].noTrailingNewLine)
                            && (lines[i].kind == Context || selection(at + i))
      {
        if l in BodyFor(Stage(true), lines[1..], at + 1, selection) {
          var i :| 0 <= i < |lines[1..]|
                   && l == PatchLine(lines[1..][i].kind, lines[1..][i].text, lines[1..][i].noTrailingNewLine)
                   && (lines[1..][i].kind == Context || selection(at + 1 + i));
          assert lines[i + 1] == lines[1..][i];
        } else {
          assert l == PatchLine(lines[0].kind, lines[0].text, lines[0].noTrailingNewLine);
        }
      }
    }
  }

  // ---------------------------------------------------------------- concatenation

  lemma {:induction false} PrintBodyConcat(a: seq<PatchLine>, b: seq<PatchLine>)
    ensures PrintBody(a + b) == PrintBody(a) + PrintBody(b)
    ensures OldCount(a + b) == OldCount(a) + OldCount(b)
    ensures NewCount(a + b) == NewCount(a) + NewCount(b)
    ensures HasChange(a + b) == (HasChange(a) || HasChange(b))
  {
    hide PrintLine;
    if a == [] {
      assert a + b == b;
    } else {
      assert (a + b)[1..] == a[1..] + b;
      PrintBodyConcat(a[1..], b);
    }
  }

  lemma PrintBodyOne(l: PatchLine)
    ensures PrintBody([l]) == PrintLine(l)
    ensures OldCount([l]) == if l.kind == Context || l.kind == Delete then 1 else 0
    ensures NewCount([l]) == if l.kind == Context || l.kind == Add then 1 else 0
    ensures HasChange([l]) == (l.kind == Add || l.kind == Delete)
  {
    hide PrintLine;
    assert [l][1..] == [];
    assert PrintBody([l]) == PrintLine(l) + PrintBody([l][1..]);
    assert PrintLine(l) + "" == PrintLine(l);
  }

  // ---------------------------------------------------------------- the formatters

  datatype FormatError = NoChanges

  /** The state of the inner loop: buffer, counts, flag. */
  datatype Buffer = Buffer(text: string, oldCount: nat, newCount: nat, any: bool)

  /** `b` after the lines `body` have been appended. */
  ghost function Appended(b: Buffer, body: seq<PatchLine>): Buffer {
    Buffer(b.text + PrintBody(body), b.oldCount + OldCount(body), b.newCount + NewCount(body), b.any || HasChange(body))
  }

  lemma AppendedTwice(b: Buffer, first: seq<PatchLine>, second: seq<PatchLine>)
    ensures Appended(Appended(b, first), second) == Appended(b, first + second)
  {
    hide PrintBody;
    PrintBodyConcat(first, second);
    assert b.text + PrintBody(first) + PrintBody(second) == b.text + (PrintBody(first) + PrintBody(second));
  }

  lemma AppendedNone(b: Buffer)
    ensures Appended(b, []) == b
  {
    assert b.text + "" == b.text;
  }

  lemma AppendedOne(b: Buffer, l: PatchLine)
    ensures Appended(b, [l]) ==
            Buffer(if l.noNewline then b.text + l.text + "\n" + (NoNewlineMarker + "\n") else b.text + l.text + "\n",
                   b.oldCount + (if l.kind == Context || l.kind == Delete then 1 else 0),
                   b.newCount + (if l.kind == Context || l.kind == Add then 1 else 0),
                   b.any || l.kind == Add || l.kind == Delete)
  {
    hide NoNewlineMarker;
    PrintBodyOne(l);
    var tail := if l.noNewline then NoNewlineMarker + "\n" else "";
    assert b.text + (l.text + "\n" + tail) == b.text + l.text + "\n" + tail;
    assert b.text + l.text + "\n" + "" == b.text + l.text + "\n";
  }

  /** Appending what one diff line contributes, which is at most one patch line. */
  lemma AppendedPiece(start: Buffer, done: seq<PatchLine>, piece: seq<PatchLine>)
    requires |piece| <= 1
    ensures var b := Appended(start, done);
            Appended(start, done + piece) ==
            if piece == [] then b
            else
              var l := piece[0];
              Buffer(if l.noNewline then b.text + l.text + "\n" + (NoNewlineMarker + "\n") else b.text + l.text + "\n",
                     b.oldCount + (if l.kind == Context || l.kind == Delete then 1 else 0),
                     b.newCount + (if l.kind == Context || l.kind == Add then 1 else 0),
                     b.any || l.kind == Add || l.kind == Delete)
  {
    hide Appended, NoNewlineMarker;
    AppendedTwice(start, done, piece);
    AppendedNone(Appended(start, done));
    if piece != [] {
      assert piece == [piece[0]];
      AppendedOne(Appended(start, done), piece[0]);
    }
  }

  /** The inner loop of `formatPatch`: the body, counts and flag of one hunk. */
  method FormatHunkBody(isNew: bool, selection: Selection, hunk: DiffHunk) returns (r: Buffer)
    ensures r == Appended(Buffer("", 0, 0, false),
                          BodyFor(Stage(isNew), hunk.lines, hunk.unifiedDiffStart, selection))
  {
    hide PrintBody, OldCount, NewCount, HasChange, Appended, NoNewlineMarker, BodyFor, Rest1;
    var hunkBuf := "";
    var oldCount, newCount := 0, 0;
    var anyAdditionsOrDeletions := false;
    ghost var start := Buffer("", 0, 0, false);
    ghost var done: seq<PatchLine> := [];
    var lineIndex := 0;
    AppendedNone(start);
    BodyStart(Stage(isNew), hunk, selection);
    while lineIndex < |hunk.lines|
      invariant 0 <= lineIndex <= |hunk.lines|
      invariant Buffer(hunkBuf, oldCount, newCount, anyAdditionsOrDeletions) == Appended(start, done)
      invariant done + BodyFor(Stage(isNew), hunk.lines[lineIndex..], hunk.unifiedDiffStart + lineIndex, selection) ==
                BodyFor(Stage(isNew), hunk.lines, hunk.unifiedDiffStart, selection)
    {
      var line := hunk.lines[lineIndex];
      var absoluteIndex := hunk.unifiedDiffStart + lineIndex;
      ghost var piece := PartialLine(isNew, line, selection(absoluteIndex));
      BodyStep(Stage(isNew), hunk, lineIndex, selection, done);
      AppendedPiece(start, done, piece);
      done := done + piece;
      lineIndex := lineIndex + 1;

      if line.kind == Hunk {
        continue;
      }
      if line.kind == Context {
        hunkBuf := hunkBuf + line.text + "\n";
        oldCount := oldCount + 1;
        newCount := newCount + 1;
      } else if selection(absoluteIndex) {
        hunkBuf := hunkBuf + line.text + "\n";
        if line.kind == Add {
          newCount := newCount + 1;
        }
        if line.kind == Delete {
          oldCount := oldCount + 1;
        }
        anyAdditionsOrDeletions := true;
      } else {
        if isNew {
          continue;
        }
        if line.kind == Add {
          continue;
        }
        hunkBuf := hunkBuf + (" " + Rest1(line.text)) + "\n";
        oldCount := oldCount + 1;
        newCount := newCount + 1;
      }
      if line.noTrailingNewLine {
        hunkBuf := hunkBuf + (NoNewlineMarker + "\n");
      }
    }
    BodyEnd(Stage(isNew), hunk, selection, done);
    r := Buffer(hunkBuf, oldCount, newCount, anyAdditionsOrDeletions);
  }

  lemma BodyStart(d: Direction, hunk: DiffHunk, selection: Selection)
    ensures [] + BodyFor(d, hunk.lines[0..], hunk.unifiedDiffStart + 0, selection) ==
            BodyFor(d, hunk.lines, hunk.unifiedDiffStart, selection)
  {
    assert hunk.lines[0..] == hunk.lines;
  }

  lemma BodyEnd(d: Direction, hunk: DiffHunk, selection: Selection, done: seq<PatchLine>)
    ensures done + BodyFor(d, hunk.lines[|hunk.lines|..], hunk.unifiedDiffStart + |hunk.lines|, selection) == done
  {
  }

  lemma BodyStep(d: Direction, hunk: DiffHunk, i: nat, selection: Selection, done: seq<PatchLine>)
    requires i < |hunk.lines|
    ensures var piece := LineFor(d, hunk.lines[i], selection(hunk.unifiedDiffStart + i));
            done + BodyFor(d, hunk.lines[i..], hunk.unifiedDiffStart + i, selection) ==
            done + piece + BodyFor(d, hunk.lines[i + 1..], hunk.unifiedDiffStart + i + 1, selection)
  {
    hide LineFor;
    assert hunk.lines[i..][1..] == hunk.lines[i + 1..];
  }

  /** Formats the patch that applies the selected lines; it is an error to select none. */
  method FormatPatch(file: WorkingDirectoryFile, hunks: seq<DiffHunk>) returns (r: Result<string, FormatError>)
    ensures var patch := PatchFor(Stage(IsNew(file.status)), hunks, file.selection);
            r == if patch == [] then Failure(NoChanges) else Success(FormatPatchHeaderForFile(file) + PrintPatch(patch))
  {
    hide BodyFor, HasChange, OldCount, NewCount, PrintBody, PrintHunk, FormatHunkHeader;
    var patch := "";
    ghost var d := Stage(IsNew(file.status));
    ghost var all := PatchFor(d, hunks, file.selection);
    ghost var done := [];
    var hunkIndex := 0;
    while hunkIndex < |hunks|
      invariant 0 <= hunkIndex <= |hunks|
      invariant patch == PrintPatch(done)
      invariant done + PatchFor(d, hunks[hunkIndex..], file.selection) == all
    {
      var hunk := hunks[hunkIndex];
      var b := FormatHunkBody(IsNew(file.status), file.selection, hunk);
      ghost var h := HunkFor(d, hunk, file.selection);
      PatchStep(d, hunks, hunkIndex, file.selection, done);
      BufferIs(b, h.body);
      hunkIndex := hunkIndex + 1;
      if !b.any {
        continue;
      }
      PrintPatchSnoc(done, h);
      done := done + [h];
      patch := patch + (FormatHunkHeader(hunk.header.oldStartLine, b.oldCount, hunk.header.newStartLine, b.newCount, "") + b.text);
      assert patch == PrintPatch(done) by {
        HunkText(h);
      }
    }
    assert done + [] == done == all;
    PatchIsEmpty(all);
    if |patch| == 0 {
      return Failure(NoChanges);
    }
    patch := FormatPatchHeaderForFile(file) + patch;
    r := Success(patch);
  }

  lemma PatchStep(d: Direction, hunks: seq<DiffHunk>, i: nat, selection: Selection, done: seq<PatchHunk>)
    requires i < |hunks|
    ensures var h := HunkFor(d, hunks[i], selection);
            done + PatchFor(d, hunks[i..], selection) ==
            (if HasChange(h.body) then done + [h] else done) + PatchFor(d, hunks[i + 1..], selection)
  {
    hide HunkFor, HasChange;
    assert hunks[i..][1..] == hunks[i + 1..];
  }

  lemma BufferIs(b: Buffer, body: seq<PatchLine>)
    requires b == Appended(Buffer("", 0, 0, false), body)
    ensures b == Buffer(PrintBody(body), OldCount(body), NewCount(body), HasChange(body))
  {
    assert "" + PrintBody(body) == PrintBody(body);
  }

  lemma HunkText(h: PatchHunk)
    ensures PrintHunk(h) == FormatHunkHeader(h.oldStart, h.oldCount, h.newStart, h.newCount, h.heading) + PrintBody(h.body)
  {
  }

  lemma {:induction false} PrintPatchSnoc(done: seq<PatchHunk>, h: PatchHunk)
    ensures PrintPatch(done + [h]) == PrintPatch(done) + PrintHunk(h)
  {
    hide PrintHunk;
    if done == [] {
      assert done + [h] == [h] && [h][1..] == [];
    } else {
      assert (done + [h])[1..] == done[1..] + [h];
      PrintPatchSnoc(done[1..], h);
    }
  }

  lemma PatchIsEmpty(patch: seq<PatchHunk>)
    ensures PrintPatch(patch) == "" <==> patch == []
  {
    if patch != [] {
      var h := patch[0];
      assert |PrintHunk(h)| >= |"@@ -"|;
    }
  }

  /** The inner loop of `formatPatchToDiscardChanges`. Its `oldCount` counts lines of the
      original file and its `newCount` lines of the changed one, which is patched here. */
  method DiscardHunkBody(selection: Selection, hunk: DiffHunk) returns (r: Buffer)
    ensures r == Appended(Buffer("", 0, 0, false), BodyFor(Discard, hunk.lines, hunk.unifiedDiffStart, selection))
  {
    hide PrintBody, OldCount, NewCount, HasChange, Appended, NoNewlineMarker, BodyFor, Rest1;
    var hunkBuf := "";
    var oldCount, newCount := 0, 0;
    var anyAdditionsOrDeletions := false;
    ghost var start := Buffer("", 0, 0, false);
    ghost var done: seq<PatchLine> := [];
    var lineIndex := 0;
    AppendedNone(start);
    BodyStart(Discard, hunk, selection);
    while lineIndex < |hunk.lines|
      invariant 0 <= lineIndex <= |hunk.lines|
      invariant Buffer(hunkBuf, newCount, oldCount, anyAdditionsOrDeletions) == Appended(start, done)
      invariant done + BodyFor(Discard, hunk.lines[lineIndex..], hunk.unifiedDiffStart + lineIndex, selection) ==
                BodyFor(Discard, hunk.lines, hunk.unifiedDiffStart, selection)
    {
      var line := hunk.lines[lineIndex];
      var absoluteIndex := hunk.unifiedDiffStart + lineIndex;
      ghost var piece := DiscardLine(line, selection(absoluteIndex));
      BodyStep(Discard, hunk, lineIndex, selection, done);
      AppendedPiece(start, done, piece);
      done := done + piece;
      lineIndex := lineIndex + 1;

      if line.kind == Hunk {
        continue;
      }
      if line.kind == Context {
        hunkBuf := hunkBuf + line.text + "\n";
        oldCount := oldCount + 1;
        newCount := newCount + 1;
      } else if selection(absoluteIndex) {
        if line.kind == Add {
          hunkBuf := hunkBuf + ("-" + Rest1(line.text)) + "\n";
          newCount := newCount + 1;
        } else {
          hunkBuf := hunkBuf + ("+" + Rest1(line.text)) + "\n";
          oldCount := oldCount + 1;
        }
        anyAdditionsOrDeletions := true;
      } else {
        if line.kind == Delete {
          continue;
        }
        oldCount := oldCount + 1;
        newCount := newCount + 1;
        hunkBuf := hunkBuf + (" " + Rest1(line.text)) + "\n";
      }
      if line.noTrailingNewLine {
        hunkBuf := hunkBuf + (NoNewlineMarker + "\n");
      }
    }
    BodyEnd(Discard, hunk, selection, done);
    r := Buffer(hunkBuf, newCount, oldCount, anyAdditionsOrDeletions);
  }

  /** Formats the patch that takes back the selected lines; None when that changes nothing. */
  method FormatPatchToDiscardChanges(filePath: string, hunks: seq<DiffHunk>, selection: Selection)
    returns (r: Option<string>)
    ensures var patch := PatchFor(Discard, hunks, selection);
            r == if patch == [] then None
                 else Some(FormatPatchHeader(Some(filePath), Some(filePath)) + PrintPatch(patch))
  {
    hide BodyFor, HasChange, OldCount, NewCount, PrintBody, PrintHunk, FormatHunkHeader;
    var patch := "";
    ghost var all := PatchFor(Discard, hunks, selection);
    ghost var done := [];
    var hunkIndex := 0;
    while hunkIndex < |hunks|
      invariant 0 <= hunkIndex <= |hunks|
      invariant patch == PrintPatch(done)
      invariant done + PatchFor(Discard, hunks[hunkIndex..], selection) == all
    {
      var hunk := hunks[hunkIndex];
      var b := DiscardHunkBody(selection, hunk);
      ghost var h := HunkFor(Discard, hunk, selection);
      PatchStep(Discard, hunks, hunkIndex, selection, done);
      BufferIs(b, h.body);
      hunkIndex := hunkIndex + 1;
      if !b.any {
        continue;
      }
      PrintPatchSnoc(done, h);
      done := done + [h];
      patch := patch + (FormatHunkHeader(hunk.header.newStartLine, b.oldCount, hunk.header.oldStartLine, b.newCount, "") + b.text);
      assert patch == PrintPatch(done) by {
        HunkText(h);
      }
    }
    assert done + [] == done == all;
    PatchIsEmpty(all);
    if |patch| == 0 {
      return None;
    }
    r := Some(FormatPatchHeader(Some(filePath), Some(filePath)) + patch);
  }
}
