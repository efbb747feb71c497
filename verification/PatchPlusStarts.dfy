/** The `+` start lines of a partial patch. Both formatters copy them from the diff; this
    says exactly when they are where the hunks land. */
module PatchPlusStarts {
  import opened Text
  import opened Diff
  import opened DiffParsing
  import opened PatchFormatter
  import opened PatchSemantics
  import opened PatchRoundTrip

  /** Each hunk lands where its `+` range says, when hunks are applied from `from` on and
      `out` lines have been written. */
  predicate PlusStartsRight(patch: seq<PatchHunk>, from: int, out: int) {
    patch == [] ||
    (var h := patch[0];
     var at := Offset(h.oldStart, h.oldCount);
     && Offset(h.newStart, h.newCount) == out + at - from
     && PlusStartsRight(patch[1..], at + h.oldCount, out + at - from + h.newCount))
  }

  /** How many more lines a patch for these lines would leave with everything selected: an
      unselected addition counts 1 for staging and -1 for discarding, a deletion the reverse. */
  function UnselectedBalance(d: Direction, lines: seq<DiffLine>, at: nat, selection: Selection): int {
    if lines == [] then 0
    else
      var missing := if selection(at) then 0 else if lines[0].kind == Add then 1 else if lines[0].kind == Delete then -1 else 0;
      (if d == Discard then -missing else missing) + UnselectedBalance(d, lines[1..], at + 1, selection)
  }

  // The ranges of a hunk in the file a patch is for, and in the file it leads to

  function FromAt(d: Direction, h: DiffHunk): int {
    if d == Discard then NewAt(h) else OldAt(h)
  }

  function FromEnd(d: Direction, h: DiffHunk): int {
    if d == Discard then NewEnd(h) else OldEnd(h)
  }

  function ToAt(d: Direction, h: DiffHunk): int {
    if d == Discard then OldAt(h) else NewAt(h)
  }

  function ToEnd(d: Direction, h: DiffHunk): int {
    if d == Discard then OldEnd(h) else NewEnd(h)
  }

  /** How much further a position is in the file a patch leads to. */
  function Gap(d: Direction, i: int, j: int): int {
    if d == Discard then i - j else j - i
  }

  /** The number of lines a patch for these lines leaves. */
  function Left(d: Direction, lines: seq<DiffLine>, at: nat, selection: Selection): nat {
    |Chosen(lines, at, if d == Discard then Complement(selection) else selection)|
  }

  /** An empty range is given by the line before it, so a `+` range that becomes empty, or
      stops being empty, is read as one line later, or earlier. */
  function Shift(d: Direction, h: DiffHunk, selection: Selection): int {
    var left := Left(d, h.lines, h.unifiedDiffStart, selection);
    var whole := ToEnd(d, h) - ToAt(d, h);
    if left == 0 && whole > 0 then 1
    else if left > 0 && whole == 0 then -1
    else 0
  }

  /** Before each hunk in which a change is selected the unselected changes balance. */
  predicate Balanced(d: Direction, hunks: seq<DiffHunk>, selection: Selection, balance: int) {
    hunks == [] ||
    (var h := hunks[0];
     && (SelectsIn(h.lines, h.unifiedDiffStart, selection) ==> balance + Shift(d, h, selection) == 0)
     && Balanced(d, hunks[1..], selection, balance + UnselectedBalance(d, h.lines, h.unifiedDiffStart, selection)))
  }

  lemma NoLinesCount(at: nat, wanted: Selection)
    ensures OldLines([]) == [] && NewLines([]) == [] && Chosen([], at, wanted) == []
  {
  }

  lemma LineCounts(lines: seq<DiffLine>, at: nat, wanted: Selection)
    requires lines != []
    ensures var kind := lines[0].kind;
            && |OldLines(lines)| == |OldLines(lines[1..])| + (if kind == Context || kind == Delete then 1 else 0)
            && |NewLines(lines)| == |NewLines(lines[1..])| + (if kind == Context || kind == Add then 1 else 0)
            && |Chosen(lines, at, wanted)| == |Chosen(lines[1..], at + 1, wanted)|
               + (if kind == Context || (kind == Add && wanted(at)) || (kind == Delete && !wanted(at)) then 1 else 0)
  {
    hide DiffedLine;
  }

  lemma {:induction false} BalanceIs(d: Direction, lines: seq<DiffLine>, at: nat, selection: Selection)
    ensures (if d == Discard then |OldLines(lines)| else |NewLines(lines)|) - Left(d, lines, at, selection) ==
            UnselectedBalance(d, lines, at, selection)
  {
    hide OldLines, NewLines, Chosen;
    if lines == [] {
      NoLinesCount(at, if d == Discard then Complement(selection) else selection);
    } else {
      BalanceIs(d, lines[1..], at + 1, selection);
      LineCounts(lines, at, if d == Discard then Complement(selection) else selection);
    }
  }

  /** What the patch for a hunk says of its `+` range. */
  lemma HunkPlusRange(d: Direction, h: DiffHunk, a: seq<FileLine>, i: nat, b: seq<FileLine>, j: nat, selection: Selection)
    requires HunkBetween(h, a, i, b, j)
    requires d == Stage(true) ==> forall k :: 0 <= k < |h.lines| ==> h.lines[k].kind != Delete
    ensures var p := HunkFor(d, h, selection); var left := Left(d, h.lines, h.unifiedDiffStart, selection);
            && p.newCount == left
            && Offset(p.newStart, p.newCount) == ToAt(d, h) + Shift(d, h, selection)
            && Offset(p.oldStart, p.oldCount) == FromAt(d, h) && FromAt(d, h) + p.oldCount == FromEnd(d, h)
            && ToAt(d, h) - FromAt(d, h) == Gap(d, i, j) && ToEnd(d, h) - FromEnd(d, h) == Gap(d, OldEnd(h), NewEnd(h))
            && ToEnd(d, h) - ToAt(d, h) - left == UnselectedBalance(d, h.lines, h.unifiedDiffStart, selection)
            && (HasChange(p.body) <==> SelectsIn(h.lines, h.unifiedDiffStart, selection))
            && (!HasChange(p.body) ==> left == FromEnd(d, h) - FromAt(d, h))
  {
    hide BodyFor, OldLines, NewLines, PreImage, PostImage, OldCount, NewCount, HasChange, Chosen, SelectsIn, Complement;
    BalanceIs(d, h.lines, h.unifiedDiffStart, selection);
    HunkMakes(d, h, a, i, b, j, selection);
    HunkFits(d, h, a, i, b, j, selection, 0);
    BodyHasChange(d, h.lines, h.unifiedDiffStart, selection);
    CountsAreImages(BodyFor(d, h.lines, h.unifiedDiffStart, selection));
    assert |a[i..OldAt(h)]| == |b[j..NewAt(h)]|;
  }

  lemma {:induction false} PlusStartsFrom(d: Direction, hunks: seq<DiffHunk>, a: seq<FileLine>, i: nat, b: seq<FileLine>,
                                          j: nat, selection: Selection, from: int, out: int)
    requires DiffFrom(hunks, a, i, b, j)
    requires d == Stage(true) ==> DeletesNothing(hunks)
    ensures PlusStartsRight(PatchFor(d, hunks, selection), from, out) <==>
            Balanced(d, hunks, selection, Gap(d, i, j) - out + from)
    decreases |hunks|
  {
    hide HunkBetween, HunkFor, HasChange, Shift, OldAt, NewAt, UnselectedBalance, PatchFor, SelectsIn, Left, PlusStartsRight,
         FromAt, ToAt, FromEnd, ToEnd, OldEnd, NewEnd, Balanced, Gap;
    if hunks == [] {
      NoHunks(d, selection, from, out, Gap(d, i, j) - out + from);
    } else {
      var h := hunks[0];
      var p := HunkFor(d, h, selection);
      var more := PatchFor(d, hunks[1..], selection);
      assert h in hunks;
      HunkPlusRange(d, h, a, i, b, j, selection);
      HunkMakes(d, h, a, i, b, j, selection);
      PatchForStep(d, hunks, selection);
      PlusStartsStep(p, more, from, out);
      BalancedStep(d, hunks, selection, Gap(d, i, j) - out + from);
      if HasChange(p.body) {
        PlusStartsFrom(d, hunks[1..], a, OldEnd(h), b, NewEnd(h), selection, FromEnd(d, h), out + FromAt(d, h) - from + p.newCount);
      } else {
        PlusStartsFrom(d, hunks[1..], a, OldEnd(h), b, NewEnd(h), selection, from, out);
      }
    }
  }

  lemma PlusStartsStep(p: PatchHunk, more: seq<PatchHunk>, from: int, out: int)
    ensures var at := Offset(p.oldStart, p.oldCount);
            PlusStartsRight([p] + more, from, out) <==>
            && Offset(p.newStart, p.newCount) == out + at - from
            && PlusStartsRight(more, at + p.oldCount, out + at - from + p.newCount)
  {
    assert ([p] + more)[1..] == more;
  }

  lemma BalancedStep(d: Direction, hunks: seq<DiffHunk>, selection: Selection, balance: int)
    requires hunks != []
    ensures var h := hunks[0];
            Balanced(d, hunks, selection, balance) <==>
            && (SelectsIn(h.lines, h.unifiedDiffStart, selection) ==> balance + Shift(d, h, selection) == 0)
            && Balanced(d, hunks[1..], selection, balance + UnselectedBalance(d, h.lines, h.unifiedDiffStart, selection))
  {
    hide SelectsIn, Shift, UnselectedBalance;
  }

  lemma NoHunks(d: Direction, selection: Selection, from: int, out: int, balance: int)
    ensures PlusStartsRight(PatchFor(d, [], selection), from, out) && Balanced(d, [], selection, balance)
  {
  }

  /** For every diff and selection, staged or discarded: the `+` start lines of the patch
      are where its hunks land exactly when, before each of them, the changes that were not
      selected balance out (give or take the line by which an empty range is read
      differently). */
  lemma PlusStartsRightIffBalanced(d: Direction, hunks: seq<DiffHunk>, a: seq<FileLine>, b: seq<FileLine>, selection: Selection)
    requires IsDiff(hunks, a, b) && (d == Stage(true) ==> DeletesNothing(hunks))
    ensures PlusStartsRight(PatchFor(d, hunks, selection), 0, 0) <==> Balanced(d, hunks, selection, 0)
  {
    hide PlusStartsRight, Balanced, PatchFor;
    PlusStartsFrom(d, hunks, a, 0, b, 0, selection, 0, 0);
  }

  // ---------------------------------------------------------------- an input with wrong starts

  /** A hunk that is one added line. */
  predicate OneAddition(h: DiffHunk) {
    |h.lines| == 2 && h.lines[0].kind == Hunk && h.lines[1].kind == Add
  }

  lemma OneAdditionIs(d: Direction, h: DiffHunk, selection: Selection)
    requires OneAddition(h)
    ensures OldLines(h.lines) == [] && NewLines(h.lines) == [DiffedLine(h.lines[1])]
    ensures var at := h.unifiedDiffStart; var selected := selection(at + 1);
            && (SelectsIn(h.lines, at, selection) <==> selected)
            && Left(d, h.lines, at, selection) == (if selected == (d != Discard) then 1 else 0)
            && UnselectedBalance(d, h.lines, at, selection) == if selected then 0 else if d == Discard then -1 else 1
  {
    hide DiffedLine;
    var rest := h.lines[1..];
    assert rest == [h.lines[1]] && rest[1..] == [];
    assert OldLines(rest) == [] && NewLines(rest) == [DiffedLine(h.lines[1])];
    BalanceIs(d, rest, h.unifiedDiffStart + 1, selection);
    BalanceIs(d, h.lines, h.unifiedDiffStart, selection);
    assert UnselectedBalance(d, rest[1..], h.unifiedDiffStart + 2, selection) == 0;
  }

  /** What the parser makes of a printed hunk that is one added line. */
  lemma OneAdditionParsed(oldStart: nat, newStart: nat, content: string, consumed: nat)
    requires '\n' !in content
    ensures var p := PatchHunk(oldStart, 0, newStart, 1, "", [PatchLine(Add, "+" + content, false)]);
            && PrintableHunk(p)
            && var h := ParsedHunk(p, consumed);
               && OneAddition(h) && h.header == HunkHeader(oldStart, 0, newStart, 1) && h.unifiedDiffStart == consumed
               && DiffedLine(h.lines[1]) == FileLine(content, false)
  {
    hide HunkHeaderText;
    var l := PatchLine(Add, "+" + content, false);
    assert l.text[1..] == content && PrintableLine(l) && [l][1..] == [];
    var n := StartCounters(HunkHeader(oldStart, 0, newStart, 1), consumed);
    assert ParsedBody([l], n) == [MakeLine(l.text, n).(noTrailingNewLine := false)] + ParsedBody([], Advance('+', n));
    assert ParsedBody([l], n) == [MakeLine(l.text, n).(noTrailingNewLine := false)];
  }

  /** The diff of two added lines of which only the second is selected. */
  function TwoAdditions(): seq<PatchHunk> {
    [PatchHunk(0, 0, 1, 1, "", [PatchLine(Add, "+n", false)]), PatchHunk(2, 0, 4, 1, "", [PatchLine(Add, "+z", false)])]
  }

  lemma TwoAdditionsParse() returns (diffText: string, first: DiffHunk, second: DiffHunk)
    ensures ParseText(diffText).Success? && ParseText(diffText).value.hunks == [first, second]
    ensures OneAddition(first) && first.header == HunkHeader(0, 0, 1, 1) && first.unifiedDiffStart == 0
    ensures OneAddition(second) && second.header == HunkHeader(2, 0, 4, 1) && second.unifiedDiffStart == 2
    ensures DiffedLine(first.lines[1]) == FileLine("n", false) && DiffedLine(second.lines[1]) == FileLine("z", false)
  {
    hide ParseText, PrintPatch, FormatPatchHeader, PatchOf, ParsedHunk, PrintableHunk, DiffedLine;
    var patch := TwoAdditions();
    OneAdditionParsed(0, 1, "n", 0);
    OneAdditionParsed(2, 4, "z", 2);
    assert "+" + "n" == "+n" && "+" + "z" == "+z";
    first, second := ParsedHunk(patch[0], 0), ParsedHunk(patch[1], 2);
    assert patch[1..] == [patch[1]] && [patch[1]][1..] == [];
    assert Printable([patch[1]]) && Printable(patch);
    assert ParsedHunks([patch[1]], 2) == [second] + ParsedHunks([], 2 + |second.lines|) == [second];
    assert ParsedHunks(patch, 0) == [first] + ParsedHunks([patch[1]], 2) == [first, second];
    diffText := FormatPatchHeader(Some("f"), Some("f")) + PrintPatch(patch);
    PrintedPatchParses(Some("f"), Some("f"), patch);
  }

  lemma TwoAdditionsDiff(first: DiffHunk, second: DiffHunk)
    requires OneAddition(first) && first.header == HunkHeader(0, 0, 1, 1)
    requires OneAddition(second) && second.header == HunkHeader(2, 0, 4, 1)
    requires DiffedLine(first.lines[1]) == FileLine("n", false) && DiffedLine(second.lines[1]) == FileLine("z", false)
    ensures var x, y := FileLine("x", false), FileLine("y", false);
            IsDiff([first, second], [x, y], [FileLine("n", false), x, y, FileLine("z", false)])
  {
    hide DiffedLine, OldLines, NewLines, OneAddition;
    var x, y, n, z := FileLine("x", false), FileLine("y", false), FileLine("n", false), FileLine("z", false);
    var a, b := [x, y], [n, x, y, z];
    OneAdditionIs(Discard, first, (i: nat) => true);
    OneAdditionIs(Discard, second, (i: nat) => true);
    assert [first, second][1..] == [second] && [second][1..] == [];
    assert HunkBetween(first, a, 0, b, 0);
    assert HunkBetween(second, a, 0, b, 1) by {
      assert a[0..2] == b[1..3] && a[2..2] == [] && b[3..4] == [z];
    }
    assert DiffFrom([], a, 2, b, 4);
    assert DiffFrom([second], a, 0, b, 1);
  }

  /** A diff the parser accepts, of two added lines of which only the second is selected.
      The patch to stage it says it goes to line 4, but it lands on line 3; the patch to
      discard it says what is left starts after line 2, but that is line 3. */
  lemma UnselectedAdditionMovesStart()
    returns (diffText: string, a: seq<FileLine>, b: seq<FileLine>, selection: Selection)
    ensures ParseText(diffText).Success? && IsDiff(ParseText(diffText).value.hunks, a, b)
    ensures forall d :: d == Discard || d == Stage(false) ==>
              !PlusStartsRight(PatchFor(d, ParseText(diffText).value.hunks, selection), 0, 0)
  {
    hide ParseText, PlusStartsRight, PatchFor, IsDiff, OneAddition, DiffedLine, SelectsIn, Left, UnselectedBalance;
    var first, second;
    diffText, first, second := TwoAdditionsParse();
    var x, y, n, z := FileLine("x", false), FileLine("y", false), FileLine("n", false), FileLine("z", false);
    a, b, selection := [x, y], [n, x, y, z], (i: nat) => i == 3;
    TwoAdditionsDiff(first, second);
    forall d | d == Discard || d == Stage(false)
      ensures !PlusStartsRight(PatchFor(d, ParseText(diffText).value.hunks, selection), 0, 0)
    {
      OneAdditionIs(d, first, selection);
      OneAdditionIs(d, second, selection);
      assert [first, second][1..] == [second];
      assert !Balanced(d, [second], selection, if d == Discard then -1 else 1);
      PlusStartsRightIffBalanced(d, [first, second], a, b, selection);
    }
  }
}
