/** Text diffs: the values the parser produces and the formatters consume. */
module Diff {
  import opened Text

  datatype LineType = Context | Add | Delete | Hunk

  datatype DiffLine = DiffLine(
    text: string,
    kind: LineType,
    originalLineNumber: nat,
    oldLineNumber: Option<nat>,
    newLineNumber: Option<nat>,
    noTrailingNewLine: bool)

  datatype HunkHeader = HunkHeader(oldStartLine: nat, oldLineCount: nat, newStartLine: nat, newLineCount: nat)

  datatype DiffHunk = DiffHunk(
    header: HunkHeader,
    lines: seq<DiffLine>,
    unifiedDiffStart: nat,
    unifiedDiffEnd: nat)

  const NoNewlineMarker := "\\ No newline at end of file"

  /** The character a unified diff line of this type starts with. */
  function PrefixOf(kind: LineType): char {
    match kind
    case Context => ' '
    case Add => '+'
    case Delete => '-'
    case Hunk => '@'
  }

  /** Which lines of a selection are selected, by absolute index in the diff. */
  type Selection = nat -> bool

  function Complement(selection: Selection): Selection {
    (i: nat) => !selection(i)
  }

  /** The text of a body line starts with the character of its type. */
  predicate WellFormedLine(line: DiffLine) {
    line.kind != Hunk && line.text != "" && line.text[0] == PrefixOf(line.kind)
  }

  /** A hunk as the parser builds it: its header line, then at least one body line. */
  predicate WellFormedHunk(h: DiffHunk) {
    && |h.lines| >= 2
    && h.lines[0].kind == Hunk
    && forall i :: 1 <= i < |h.lines| ==> WellFormedLine(h.lines[i])
  }

  predicate WellFormedHunks(hunks: seq<DiffHunk>) {
    forall h :: h in hunks ==> WellFormedHunk(h)
  }
}
