/** What a patch means: applying it to a file. The two formatters are proved to
    select exactly the chosen changes, each against its own file, and to agree. */
module PatchSemantics {
  import opened Text
  import opened Diff
  import opened PatchFormatter

  /** A line of a file, with whether it lacks its newline. */
  datatype FileLine = FileLine(content: string, noNewline: bool)

  // ---------------------------------------------------------------- applying a patch

  /** The zero-based position a range of the unified format stands for: an empty
      range is given by the line before it. */
  function Offset(start: nat, count: nat): int {
    if count == 0 then start else start - 1
  }

  function PatchedLine(l: PatchLine): FileLine {
    FileLine(Rest1(l.text), l.noNewline)
  }

  /** The lines a patch body expects to find. */
  function PreImage(body: seq<PatchLine>): seq<FileLine> {
    if body == [] then []
    else (if body[0].kind == Context || body[0].kind == Delete then [PatchedLine(body[0])] else []) + PreImage(body[1..])
  }

  /** The lines a patch body leaves. */
  function PostImage(body: seq<PatchLine>): seq<FileLine> {
    if body == [] then []
    else (if body[0].kind == Context || body[0].kind == Add then [PatchedLine(body[0])] else []) + PostImage(body[1..])
  }

  /** The hunk fits the file at the position its `-` range gives, and its counts fit its body. */
  predicate Fits(h: PatchHunk, file: seq<FileLine>, from: nat) {
    var at := Offset(h.oldStart, h.oldCount);
    && h.oldCount == |PreImage(h.body)|
    && h.newCount == |PostImage(h.body)|
    && from <= at && at + h.oldCount <= |file|
    && file[at..at + h.oldCount] == PreImage(h.body)
  }

  /** Applies hunks in order to the part of a file from `from` on, each located by its
      `-` range; None when a hunk does not fit. */
  function Apply(hunks: seq<PatchHunk>, file: seq<FileLine>, from: nat): Option<seq<FileLine>>
    requires from <= |file|
    decreases |hunks|
  {
    if hunks == [] then Some(file[from..])
    else if !Fits(hunks[0], file, from) then None
    else
      var at := Offset(hunks[0].oldStart, hunks[0].oldCount);
      match Apply(hunks[1..], file, at + hunks[0].oldCount)
      case None => None
      case Some(rest) => Some(file[from..at] + PostImage(hunks[0].body) + rest)
  }

  // ---------------------------------------------------------------- diffs between two files

  function DiffedLine(l: DiffLine): FileLine {
    FileLine(Rest1(l.text), l.noTrailingNewLine)
  }

  function OldLines(lines: seq<DiffLine>): seq<FileLine> {
    if lines == [] then []
    else (if lines[0].kind == Context || lines[0].kind == Delete then [DiffedLine(lines[0])] else []) + OldLines(lines[1..])
  }

  function NewLines(lines: seq<DiffLine>): seq<FileLine> {
    if lines == [] then []
    else (if lines[0].kind == Context || lines[0].kind == Add then [DiffedLine(lines[0])] else []) + NewLines(lines[1..])
  }

  function OldAt(h: DiffHunk): int {
    Offset(h.header.oldStartLine, h.header.oldLineCount)
  }

  function NewAt(h: DiffHunk): int {
    Offset(h.header.newStartLine, h.header.newLineCount)
  }

  function OldEnd(h: DiffHunk): int {
    OldAt(h) + h.header.oldLineCount
  }

  function NewEnd(h: DiffHunk): int {
    NewAt(h) + h.header.newLineCount
  }

  /** The hunk's lines are those of the files at the ranges its header states, and
      between these positions and the ranges the files agree. */
  predicate HunkBetween(h: DiffHunk, a: seq<FileLine>, i: nat, b: seq<FileLine>, j: nat) {
    && h.header.oldLineCount == |OldLines(h.lines)| && h.header.newLineCount == |NewLines(h.lines)|
    && i <= OldAt(h) && j <= NewAt(h) && OldEnd(h) <= |a| && NewEnd(h) <= |b|
    && a[i..OldAt(h)] == b[j..NewAt(h)]
    && a[OldAt(h)..OldEnd(h)] == OldLines(h.lines)
    && b[NewAt(h)..NewEnd(h)] == NewLines(h.lines)
  }

  /** `hunks` are a diff from what is left of `a` at `i` to what is left of `b` at `j`:
      equal gaps, and hunks whose lines are those of the files at the stated ranges. */
  predicate DiffFrom(hunks: seq<DiffHunk>, a: seq<FileLine>, i: nat, b: seq<FileLine>, j: nat)
    decreases |hunks|
  {
    && i <= |a| && j <= |b|
    && if hunks == [] then a[i..] == b[j..]
       else
         var h := hunks[0];
         && HunkBetween(h, a, i, b, j)
         && DiffFrom(hunks[1..], a, OldEnd(h), b, NewEnd(h))
  }

  /** `hunks` are a diff that turns file `a` into file `b`. */
  predicate IsDiff(hunks: seq<DiffHunk>, a: seq<FileLine>, b: seq<FileLine>) {
    DiffFrom(hunks, a, 0, b, 0)
  }

  /** A new file's diff has only additions; in particular it deletes nothing. */
  predicate DeletesNothing(hunks: seq<DiffHunk>) {
    forall h, i :: h in hunks && 0 <= i < |h.lines| ==> h.lines[i].kind != Delete
  }

  // ---------------------------------------------------------------- the intended result

  /** The lines of a hunk when exactly the selected changes are made. */
  function Chosen(lines: seq<DiffLine>, at: nat, selection: Selection): seq<FileLine> {
    if lines == [] then []
    else
      var keep := match lines[0].kind
        case Hunk => false
        case Context => true
        case Add => selection(at)
        case Delete => !selection(at);
      (if keep then [DiffedLine(lines[0])] else []) + Chosen(lines[1..], at + 1, selection)
  }

  /** File `a` from `i` on with exactly the selected changes of the diff made. */
  function Merged(hunks: seq<DiffHunk>, a: seq<FileLine>, i: nat, ghost b: seq<FileLine>, ghost j: nat, selection: Selection): seq<FileLine>
    requires DiffFrom(hunks, a, i, b, j)
    decreases |hunks|
  {
    if hunks == [] then a[i..]
    else
      var h := hunks[0];
      a[i..OldAt(h)] + Chosen(h.lines, h.unifiedDiffStart, selection)
      + Merged(hunks[1..], a, OldEnd(h), b, NewEnd(h), selection)
  }

  // ---------------------------------------------------------------- one hunk

  lemma {:induction false} PreImageConcat(x: seq<PatchLine>, y: seq<PatchLine>)
    ensures PreImage(x + y) == PreImage(x) + PreImage(y)
  {
    hide PatchedLine;
    if x == [] {
      assert x + y == y;
    } else {
      var head := if x[0].kind == Context || x[0].kind == Delete then [PatchedLine(x[0])] else [];
      assert (x + y)[1..] == x[1..] + y;
      assert PreImage(x + y) == head + PreImage(x[1..] + y);
      PreImageConcat(x[1..], y);
      ConcatAssoc(head, PreImage(x[1..]), PreImage(y));
    }
  }

  lemma {:induction false} PostImageConcat(x: seq<PatchLine>, y: seq<PatchLine>)
    ensures PostImage(x + y) == PostImage(x) + PostImage(y)
  {
    hide PatchedLine;
    if x == [] {
      assert x + y == y;
    } else {
      var head := if x[0].kind == Context || x[0].kind == Add then [PatchedLine(x[0])] else [];
      assert (x + y)[1..] == x[1..] + y;
      assert PostImage(x + y) == head + PostImage(x[1..] + y);
      PostImageConcat(x[1..], y);
      ConcatAssoc(head, PostImage(x[1..]), PostImage(y));
    }
  }

  /** The lines of the file being patched, and those wanted, that one diff line stands for. */
  function LineExpected(d: Direction, line: DiffLine): seq<FileLine> {
    if line.kind == Context || line.kind == (if d == Discard then Add else Delete) then [DiffedLine(line)] else []
  }

  function LineChosen(line: DiffLine, selected: bool): seq<FileLine> {
    if line.kind == Context || (line.kind == Add && selected) || (line.kind == Delete && !selected)
    then [DiffedLine(line)] else []
  }

  lemma LineImages(d: Direction, line: DiffLine, selected: bool)
    requires d == Stage(true) ==> line.kind != Delete
    ensures PreImage(LineFor(d, line, selected)) == LineExpected(d, line)
    ensures PostImage(LineFor(d, line, selected)) == LineChosen(line, if d == Discard then !selected else selected)
  {
    var piece := LineFor(d, line, selected);
    if piece != [] {
      assert piece[1..] == [];
      assert (" " + Rest1(line.text))[1..] == Rest1(line.text);
      assert ("-" + Rest1(line.text))[1..] == Rest1(line.text);
      assert ("+" + Rest1(line.text))[1..] == Rest1(line.text);
      assert PatchedLine(piece[0]) == DiffedLine(line);
    }
  }

  /** The patch for a hunk expects exactly the hunk's lines of the file it is for. */
  lemma {:induction false} BodyExpects(d: Direction, lines: seq<DiffLine>, at: nat, selection: Selection)
    requires d == Stage(true) ==> forall i :: 0 <= i < |lines| ==> lines[i].kind != Delete
    ensures PreImage(BodyFor(d, lines, at, selection)) == if d == Discard then NewLines(lines) else OldLines(lines)
  {
    hide LineFor, PreImage, DiffedLine;
    if lines == [] {
      EmptyImages();
    } else {
      LineImages(d, lines[0], selection(at));
      BodyExpects(d, lines[1..], at + 1, selection);
      PreImageConcat(LineFor(d, lines[0], selection(at)), BodyFor(d, lines[1..], at + 1, selection));
    }
  }

  /** The patch for a hunk leaves exactly the chosen lines. */
  lemma {:induction false} BodyLeaves(d: Direction, lines: seq<DiffLine>, at: nat, selection: Selection)
    requires d == Stage(true) ==> forall i :: 0 <= i < |lines| ==> lines[i].kind != Delete
    ensures PostImage(BodyFor(d, lines, at, selection)) ==
            Chosen(lines, at, if d == Discard then Complement(selection) else selection)
  {
    hide LineFor, PostImage, DiffedLine;
    if lines == [] {
      EmptyImages();
    } else {
      LineImages(d, lines[0], selection(at));
      BodyLeaves(d, lines[1..], at + 1, selection);
      PostImageConcat(LineFor(d, lines[0], selection(at)), BodyFor(d, lines[1..], at + 1, selection));
    }
  }

  lemma EmptyImages()
    ensures PreImage([]) == [] && PostImage([]) == []
  {
  }

  lemma {:induction false} CountsAreImages(body: seq<PatchLine>)
    ensures OldCount(body) == |PreImage(body)| && NewCount(body) == |PostImage(body)|
    ensures !HasChange(body) ==> PreImage(body) == PostImage(body)
  {
    if body != [] {
      CountsAreImages(body[1..]);
    }
  }

  // ---------------------------------------------------------------- whole patches

  /** Applying a patch made for a selection, from a position at or before that of the
      diff, gives the merged file. Hunks left out of the patch fall into the gaps. */
  lemma {:induction false} AppliesFrom(d: Direction, hunks: seq<DiffHunk>, a: seq<FileLine>, i: nat,
                                       b: seq<FileLine>, j: nat, selection: Selection, from: nat)
    requires DiffFrom(hunks, a, i, b, j)
    requires d == Stage(true) ==> DeletesNothing(hunks)
    requires from <= if d == Discard then j else i
    ensures var file, at := if d == Discard then b else a, if d == Discard then j else i;
            Apply(PatchFor(d, hunks, selection), file, from) ==
            Some(file[from..at] + Merged(hunks, a, i, b, j, if d == Discard then Complement(selection) else selection))
    decreases |hunks|
  {
    hide HunkBetween, HunkFor, HasChange, Fits, Chosen, Complement, Apply, PatchFor, OldAt, NewAt, OldEnd, NewEnd;
    var file, at := if d == Discard then b else a, if d == Discard then j else i;
    if hunks == [] {
      NothingApplied(d, selection, file, from, at);
    } else {
      var h := hunks[0];
      var p := HunkFor(d, h, selection);
      HunkMakes(d, h, a, i, b, j, selection);
      PatchForStep(d, hunks, selection);
      var start, end := if d == Discard then NewAt(h) else OldAt(h), if d == Discard then NewEnd(h) else OldEnd(h);
      var wanted := if d == Discard then Complement(selection) else selection;
      var more := PatchFor(d, hunks[1..], selection);
      var rest := Merged(hunks[1..], a, OldEnd(h), b, NewEnd(h), wanted);
      if HasChange(p.body) {
        HunkFits(d, h, a, i, b, j, selection, from);
        AppliesFrom(d, hunks[1..], a, OldEnd(h), b, NewEnd(h), selection, end);
        assert file[end..end] + rest == rest;
        ApplyStep(p, more, file, from, rest);
        SpliceKept(file, from, at, start, PostImage(p.body), rest);
      } else {
        AppliesFrom(d, hunks[1..], a, OldEnd(h), b, NewEnd(h), selection, from);
        SpliceSkipped(file, from, at, start, end, rest);
      }
    }
  }

  lemma NothingApplied(d: Direction, selection: Selection, file: seq<FileLine>, from: nat, at: nat)
    requires from <= at <= |file|
    ensures Apply(PatchFor(d, [], selection), file, from) == Some(file[from..at] + file[at..])
  {
    assert file[from..] == file[from..at] + file[at..];
  }

  lemma PatchForStep(d: Direction, hunks: seq<DiffHunk>, selection: Selection)
    requires hunks != []
    ensures var p := HunkFor(d, hunks[0], selection); var more := PatchFor(d, hunks[1..], selection);
            PatchFor(d, hunks, selection) == if HasChange(p.body) then [p] + more else more
  {
    hide HunkFor, HasChange;
  }

  lemma ApplyStep(p: PatchHunk, more: seq<PatchHunk>, file: seq<FileLine>, from: nat, rest: seq<FileLine>)
    requires Fits(p, file, from)
    requires Apply(more, file, Offset(p.oldStart, p.oldCount) + p.oldCount) == Some(rest)
    ensures Apply([p] + more, file, from) ==
            Some(file[from..Offset(p.oldStart, p.oldCount)] + PostImage(p.body) + rest)
  {
    hide PostImage, PreImage;
    assert ([p] + more)[1..] == more;
  }

  lemma SpliceKept(file: seq<FileLine>, from: nat, at: nat, start: nat, post: seq<FileLine>, rest: seq<FileLine>)
    requires from <= at <= start <= |file|
    ensures file[from..start] + post + rest == file[from..at] + (file[at..start] + post + rest)
  {
    assert file[from..start] == file[from..at] + file[at..start];
  }

  lemma SpliceSkipped(file: seq<FileLine>, from: nat, at: nat, start: nat, end: nat, rest: seq<FileLine>)
    requires from <= at <= start <= end <= |file|
    ensures file[from..end] + rest == file[from..at] + (file[at..start] + file[start..end] + rest)
  {
    assert file[from..end] == file[from..at] + file[at..start] + file[start..end];
  }

  /** What the patch for one hunk expects and leaves, in terms of the files. */
  lemma HunkMakes(d: Direction, h: DiffHunk, a: seq<FileLine>, i: nat, b: seq<FileLine>, j: nat, selection: Selection)
    requires HunkBetween(h, a, i, b, j)
    requires d == Stage(true) ==> forall i :: 0 <= i < |h.lines| ==> h.lines[i].kind != Delete
    ensures i <= OldAt(h) <= OldEnd(h) <= |a| && j <= NewAt(h) <= NewEnd(h) <= |b|
    ensures a[i..OldAt(h)] == b[j..NewAt(h)]
    ensures var body := HunkFor(d, h, selection).body;
            var wanted := if d == Discard then Complement(selection) else selection;
            && PreImage(body) == (if d == Discard then b[NewAt(h)..NewEnd(h)] else a[OldAt(h)..OldEnd(h)])
            && PostImage(body) == Chosen(h.lines, h.unifiedDiffStart, wanted)
            && (!HasChange(body) ==> PreImage(body) == PostImage(body))
  {
    hide BodyFor, Chosen, OldLines, NewLines, HasChange, PreImage, PostImage, Complement;
    BodyExpects(d, h.lines, h.unifiedDiffStart, selection);
    BodyLeaves(d, h.lines, h.unifiedDiffStart, selection);
    CountsAreImages(BodyFor(d, h.lines, h.unifiedDiffStart, selection));
  }

  lemma HunkFits(d: Direction, h: DiffHunk, a: seq<FileLine>, i: nat, b: seq<FileLine>, j: nat,
                 selection: Selection, from: nat)
    requires HunkBetween(h, a, i, b, j)
    requires d == Stage(true) ==> forall i :: 0 <= i < |h.lines| ==> h.lines[i].kind != Delete
    requires from <= if d == Discard then j else i
    ensures var p := HunkFor(d, h, selection);
            && Fits(p, if d == Discard then b else a, from)
            && Offset(p.oldStart, p.oldCount) == (if d == Discard then NewAt(h) else OldAt(h))
            && Offset(p.oldStart, p.oldCount) + p.oldCount == (if d == Discard then NewEnd(h) else OldEnd(h))
  {
    hide BodyFor, Chosen, OldLines, NewLines, HasChange, PreImage, PostImage, Complement, OldCount, NewCount;
    HunkMakes(d, h, a, i, b, j, selection);
    CountsAreImages(BodyFor(d, h.lines, h.unifiedDiffStart, selection));
  }

  /** File `a` with exactly the selected changes made. */
  function MergedFile(hunks: seq<DiffHunk>, a: seq<FileLine>, ghost b: seq<FileLine>, selection: Selection): seq<FileLine>
    requires IsDiff(hunks, a, b)
  {
    Merged(hunks, a, 0, b, 0, selection)
  }

  /** Staging: for every selection, the patch applies cleanly to the old file and
      makes exactly the selected changes. */
  lemma StagingMakesSelected(isNew: bool, hunks: seq<DiffHunk>, a: seq<FileLine>, b: seq<FileLine>, selection: Selection)
    requires IsDiff(hunks, a, b) && (isNew ==> DeletesNothing(hunks))
    ensures Apply(PatchFor(Stage(isNew), hunks, selection), a, 0) == Some(MergedFile(hunks, a, b, selection))
  {
    AppliesFrom(Stage(isNew), hunks, a, 0, b, 0, selection, 0);
    var all := MergedFile(hunks, a, b, selection);
    assert a[0..0] + all == all;
  }

  /** Discarding: for every selection, the patch applies cleanly to the new file and
      leaves exactly the changes that were not selected. */
  lemma DiscardingKeepsUnselected(hunks: seq<DiffHunk>, a: seq<FileLine>, b: seq<FileLine>, selection: Selection)
    requires IsDiff(hunks, a, b)
    ensures Apply(PatchFor(Discard, hunks, selection), b, 0) == Some(MergedFile(hunks, a, b, Complement(selection)))
  {
    hide Complement;
    AppliesFrom(Discard, hunks, a, 0, b, 0, selection, 0);
    var all := MergedFile(hunks, a, b, Complement(selection));
    assert b[0..0] + all == all;
  }

  lemma {:induction false} ChosenByAgreement(lines: seq<DiffLine>, at: nat, s: Selection, t: Selection)
    requires forall k: nat :: s(k) == t(k)
    ensures Chosen(lines, at, s) == Chosen(lines, at, t)
  {
    if lines != [] {
      ChosenByAgreement(lines[1..], at + 1, s, t);
    }
  }

  lemma {:induction false} MergedByAgreement(hunks: seq<DiffHunk>, a: seq<FileLine>, i: nat, b: seq<FileLine>, j: nat,
                                             s: Selection, t: Selection)
    requires DiffFrom(hunks, a, i, b, j)
    requires forall k: nat :: s(k) == t(k)
    ensures Merged(hunks, a, i, b, j, s) == Merged(hunks, a, i, b, j, t)
    decreases |hunks|
  {
    if hunks != [] {
      ChosenByAgreement(hunks[0].lines, hunks[0].unifiedDiffStart, s, t);
      MergedByAgreement(hunks[1..], a, OldEnd(hunks[0]), b, NewEnd(hunks[0]), s, t);
    }
  }

  /** Confluence: staging a selection in the old file and discarding the rest from the
      new file give the same file. */
  lemma Confluence(isNew: bool, hunks: seq<DiffHunk>, a: seq<FileLine>, b: seq<FileLine>, selection: Selection)
    requires IsDiff(hunks, a, b) && (isNew ==> DeletesNothing(hunks))
    ensures Apply(PatchFor(Stage(isNew), hunks, selection), a, 0).Some?
    ensures Apply(PatchFor(Stage(isNew), hunks, selection), a, 0) ==
            Apply(PatchFor(Discard, hunks, Complement(selection)), b, 0)
  {
    hide Apply, PatchFor;
    StagingMakesSelected(isNew, hunks, a, b, selection);
    DiscardingKeepsUnselected(hunks, a, b, Complement(selection));
    MergedByAgreement(hunks, a, 0, b, 0, selection, Complement(Complement(selection)));
  }

  lemma {:induction false} ChosenAllOrNone(lines: seq<DiffLine>, at: nat, selection: Selection)
    ensures (forall k: nat :: at <= k < at + |lines| ==> selection(k)) ==> Chosen(lines, at, selection) == NewLines(lines)
    ensures (forall k: nat :: at <= k < at + |lines| ==> !selection(k)) ==> Chosen(lines, at, selection) == OldLines(lines)
  {
    if lines != [] {
      ChosenAllOrNone(lines[1..], at + 1, selection);
    }
  }

  /** Making all changes gives the new file, making none gives the old one. */
  lemma {:induction false} MergedAllOrNone(hunks: seq<DiffHunk>, a: seq<FileLine>, i: nat, b: seq<FileLine>, j: nat,
                                           selection: Selection)
    requires DiffFrom(hunks, a, i, b, j)
    ensures (forall k: nat :: selection(k)) ==> Merged(hunks, a, i, b, j, selection) == b[j..]
    ensures (forall k: nat :: !selection(k)) ==> Merged(hunks, a, i, b, j, selection) == a[i..]
    decreases |hunks|
  {
    hide HunkBetween, Chosen, OldLines, NewLines;
    if hunks != [] {
      var h := hunks[0];
      HunkSlices(h, a, i, b, j);
      ChosenAllOrNone(h.lines, h.unifiedDiffStart, selection);
      MergedAllOrNone(hunks[1..], a, OldEnd(h), b, NewEnd(h), selection);
    }
  }

  lemma HunkSlices(h: DiffHunk, a: seq<FileLine>, i: nat, b: seq<FileLine>, j: nat)
    requires HunkBetween(h, a, i, b, j)
    ensures i <= OldAt(h) <= OldEnd(h) <= |a| && j <= NewAt(h) <= NewEnd(h) <= |b|
    ensures a[i..] == a[i..OldAt(h)] + OldLines(h.lines) + a[OldEnd(h)..]
    ensures b[j..] == a[i..OldAt(h)] + NewLines(h.lines) + b[NewEnd(h)..]
  {
    hide OldLines, NewLines;
    assert a[i..] == a[i..OldAt(h)] + a[OldAt(h)..OldEnd(h)] + a[OldEnd(h)..];
    assert b[j..] == b[j..NewAt(h)] + b[NewAt(h)..NewEnd(h)] + b[NewEnd(h)..];
  }

  /** Selecting everything: staging turns the old file into the new one, and discarding
      turns the new file back into the old one. */
  lemma SelectingEverything(isNew: bool, hunks: seq<DiffHunk>, a: seq<FileLine>, b: seq<FileLine>, selection: Selection)
    requires IsDiff(hunks, a, b) && (isNew ==> DeletesNothing(hunks))
    requires forall k: nat :: selection(k)
    ensures Apply(PatchFor(Stage(isNew), hunks, selection), a, 0) == Some(b)
    ensures Apply(PatchFor(Discard, hunks, selection), b, 0) == Some(a)
  {
    hide Apply, PatchFor;
    StagingMakesSelected(isNew, hunks, a, b, selection);
    DiscardingKeepsUnselected(hunks, a, b, selection);
    MergedAllOrNone(hunks, a, 0, b, 0, selection);
    MergedAllOrNone(hunks, a, 0, b, 0, Complement(selection));
    assert a[0..] == a && b[0..] == b;
  }

  // ---------------------------------------------------------------- when there is no patch

  predicate SelectsIn(lines: seq<DiffLine>, at: nat, selection: Selection) {
    exists i :: 0 <= i < |lines| && (lines[i].kind == Add || lines[i].kind == Delete) && selection(at + i)
  }

  lemma {:induction false} BodyHasChange(d: Direction, lines: seq<DiffLine>, at: nat, selection: Selection)
    ensures HasChange(BodyFor(d, lines, at, selection)) <==> SelectsIn(lines, at, selection)
  {
    if lines != [] {
      var piece, rest := LineFor(d, lines[0], selection(at)), BodyFor(d, lines[1..], at + 1, selection);
      PrintBodyConcat(piece, rest);
      BodyHasChange(d, lines[1..], at + 1, selection);
      LineHasChange(d, lines[0], selection(at));
      SelectsStep(lines, at, selection);
    }
  }

  lemma LineHasChange(d: Direction, line: DiffLine, selected: bool)
    ensures HasChange(LineFor(d, line, selected)) <==> (line.kind == Add || line.kind == Delete) && selected
  {
    var piece := LineFor(d, line, selected);
    if piece != [] {
      PrintBodyOne(piece[0]);
      assert piece == [piece[0]];
    }
  }

  lemma SelectsStep(lines: seq<DiffLine>, at: nat, selection: Selection)
    requires lines != []
    ensures SelectsIn(lines, at, selection) <==>
            ((lines[0].kind == Add || lines[0].kind == Delete) && selection(at)) || SelectsIn(lines[1..], at + 1, selection)
  {
    if SelectsIn(lines[1..], at + 1, selection) {
      var i :| 0 <= i < |lines[1..]| && (lines[1..][i].kind == Add || lines[1..][i].kind == Delete) && selection(at + 1 + i);
      assert lines[i + 1] == lines[1..][i] && selection(at + (i + 1));
    }
    if SelectsIn(lines, at, selection) {
      var i :| 0 <= i < |lines| && (lines[i].kind == Add || lines[i].kind == Delete) && selection(at + i);
      if i > 0 {
        assert lines[1..][i - 1] == lines[i] && selection(at + 1 + (i - 1));
      }
    }
  }

  /** There is no patch, so staging throws and discarding returns null, exactly when no
      added or deleted line is selected. */
  lemma {:induction false} NoPatchIffNothingSelected(d: Direction, hunks: seq<DiffHunk>, selection: Selection)
    ensures PatchFor(d, hunks, selection) == [] <==>
            forall h :: h in hunks ==> !SelectsIn(h.lines, h.unifiedDiffStart, selection)
  {
    hide BodyFor, HasChange, SelectsIn;
    if hunks != [] {
      BodyHasChange(d, hunks[0].lines, hunks[0].unifiedDiffStart, selection);
      NoPatchIffNothingSelected(d, hunks[1..], selection);
    }
  }
}
