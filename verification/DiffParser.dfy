/** The parser for the unified diff format (app/src/lib/diff-parser.ts). `ParseText`
    says what a parse returns, line by line; the class `DiffParser` is the pointer
    machine that computes it. */
module DiffParsing {
  import opened Text
  import opened Diff

  datatype ParseError = EndOfDiff | InvalidHunkHeader | ShortNoNewlineMarker | EmptyHunk

  datatype RawDiff = RawDiff(header: string, contents: string, hunks: seq<DiffHunk>, isBinary: bool)

  // ---------------------------------------------------------------- hunk headers

  /** `(\d+)(?:,(\d+))?` at the start of `s`: start, count (1 when left out), rest. */
  function MatchRange(s: string): Option<(nat, nat, string)> {
    var k := DigitPrefix(s);
    if k == 0 then None
    else
      var start, rest := ParseNat(s[..k]), s[k..];
      if rest == "" || rest[0] != ',' then Some((start, 1, rest))
      else
        var m := DigitPrefix(rest[1..]);
        if m == 0 then None else Some((start, ParseNat(rest[1..][..m]), rest[1..][m..]))
  }

  /** `/^@@ -(\d+)(?:,(\d+))? \+(\d+)(?:,(\d+))? @@/` */
  function ParseHunkHeader(line: string): Result<HunkHeader, ParseError> {
    if !StartsWith(line, "@@ -") then Failure(InvalidHunkHeader)
    else
      match MatchRange(line[4..])
      case None => Failure(InvalidHunkHeader)
      case Some((oldStart, oldCount, rest)) =>
        if !StartsWith(rest, " +") then Failure(InvalidHunkHeader)
        else
          match MatchRange(rest[2..])
          case None => Failure(InvalidHunkHeader)
          case Some((newStart, newCount, tail)) =>
            if StartsWith(tail, " @@")
            then Success(HunkHeader(oldStart, oldCount, newStart, newCount))
            else Failure(InvalidHunkHeader)
  }

  // ---------------------------------------------------------------- what a parse returns

  datatype HeaderInfo = NoHeader | BinaryHeader | TextHeader

  /** What a line of the diff header says about the diff, if it ends the header. */
  function HeaderKind(line: string): Option<HeaderInfo> {
    if StartsWith(line, "Binary files ") && EndsWith(line, "differ") then Some(BinaryHeader)
    else if StartsWith(line, "+++") then Some(TextHeader)
    else None
  }

  /** Scans lines up to the `+++` line, a binary marker, or an empty line; says
      what was found and how many lines were read. */
  function ScanHeader(lines: seq<string>): (r: (HeaderInfo, nat))
    ensures r.1 <= |lines|
  {
    if lines == [] then (NoHeader, 0)
    else if lines[0] == "" then (NoHeader, 1)
    else if HeaderKind(lines[0]).Some? then (HeaderKind(lines[0]).value, 1)
    else
      var (info, n) := ScanHeader(lines[1..]);
      (info, n + 1)
  }

  predicate IsLinePrefix(c: char) {
    c == '+' || c == '-' || c == ' ' || c == '\\'
  }

  predicate IsBodyLine(line: string) {
    line != "" && IsLinePrefix(line[0])
  }

  /** The line numbers the next line of a hunk would have. */
  datatype Counters = Counters(before: nat, after: nat, diffLine: nat)

  /** The line read when the counters stand at `n`. */
  function MakeLine(text: string, n: Counters): DiffLine
    requires text != ""
  {
    if text[0] == '+' then DiffLine(text, Add, n.diffLine + 1, None, Some(n.after), false)
    else if text[0] == '-' then DiffLine(text, Delete, n.diffLine + 1, Some(n.before), None, false)
    else DiffLine(text, Context, n.diffLine + 1, Some(n.before), Some(n.after), false)
  }

  function Advance(c: char, n: Counters): Counters {
    Counters(
      if c == '+' then n.before else n.before + 1,
      if c == '-' then n.after else n.after + 1,
      n.diffLine + 1)
  }

  function FlagLast(lines: seq<DiffLine>): (r: seq<DiffLine>)
    requires lines != []
    ensures |r| == |lines|
  {
    lines[|lines| - 1 := lines[|lines| - 1].(noTrailingNewLine := true)]
  }

  /** Reads body lines from `pending` on to the end of `lines`; the number left over is returned. */
  function ReadBody(pending: seq<string>, lines: seq<DiffLine>, n: Counters): (r: Result<(seq<DiffLine>, seq<string>), ParseError>)
    requires lines != []
    ensures r.Success? ==> |r.value.1| <= |pending| && |r.value.0| >= |lines|
  {
    if pending == [] || !IsBodyLine(pending[0]) then Success((lines, pending))
    else if pending[0][0] == '\\' then
      if |pending[0]| < 12 then Failure(ShortNoNewlineMarker)
      else ReadBody(pending[1..], FlagLast(lines), n)
    else ReadBody(pending[1..], lines + [MakeLine(pending[0], n)], Advance(pending[0][0], n))
  }

  function HeaderLine(text: string): DiffLine {
    DiffLine(text, Hunk, 1, None, None, false)
  }

  function StartCounters(header: HunkHeader, consumed: nat): Counters {
    Counters(header.oldStartLine, header.newStartLine, consumed)
  }

  /** Reads one hunk whose first line has the absolute index `consumed`. */
  function ReadHunk(pending: seq<string>, consumed: nat): (r: Result<(DiffHunk, seq<string>), ParseError>)
    ensures r.Success? ==> |r.value.1| < |pending|
  {
    if pending == [] || pending[0] == "" then Failure(EndOfDiff)
    else
      var header :- ParseHunkHeader(pending[0]);
      var (lines, rest) :- ReadBody(pending[1..], [HeaderLine(pending[0])], StartCounters(header, consumed));
      if |lines| <= 1 then Failure(EmptyHunk)
      else Success((DiffHunk(header, lines, consumed, consumed + |lines| - 1), rest))
  }

  /** Reads hunks until no line is left. */
  function ReadHunks(pending: seq<string>, consumed: nat): Result<seq<DiffHunk>, ParseError>
    decreases |pending|
  {
    var (hunk, rest) :- ReadHunk(pending, consumed);
    if rest == [] then Success([hunk])
    else
      var hunks :- ReadHunks(rest, consumed + |hunk.lines|);
      Success([hunk] + hunks)
  }

  /** `s.replace(pattern, '')` with the global flag, for a literal pattern. */
  function RemoveAll(s: string, pattern: string): string
    requires pattern != ""
    decreases |s|
  {
    if s == "" then ""
    else if StartsWith(s, pattern) then RemoveAll(s[|pattern|..], pattern)
    else [s[0]] + RemoveAll(s[1..], pattern)
  }

  /** What `parse` returns for the lines of a diff. */
  function ParseLines(lines: seq<string>): Result<RawDiff, ParseError> {
    var (info, n) := ScanHeader(lines);
    var header := Join(lines[..n], '\n');
    match info
    case NoHeader => Success(RawDiff(header, "", [], false))
    case BinaryHeader => Success(RawDiff(header, "", [], true))
    case TextHeader =>
      var hunks :- ReadHunks(lines[n..], 0);
      Success(RawDiff(header, RemoveAll(Join(lines[n..], '\n'), "\n" + NoNewlineMarker), hunks, false))
  }

  function ParseText(text: string): Result<RawDiff, ParseError> {
    ParseLines(Lines(text))
  }

  // ---------------------------------------------------------------- text pointers

  /** Where the line end pointer can stand: on a newline, at the end of an
      unterminated text, or before the first line. */
  predicate IsLineEnd(text: string, le: int) {
    || le == -1
    || (0 <= le < |text| && text[le] == '\n')
    || (0 < le == |text| && text[le - 1] != '\n')
  }

  /** Where the line that starts at `ls` ends. */
  function LineEndFrom(text: string, ls: nat): (le: nat)
    requires ls < |text|
    ensures ls <= le <= |text| && IsLineEnd(text, le)
    ensures '\n' !in text[ls..le]
  {
    var i := IndexOf(text, '\n', ls);
    if i == -1 then |text| else i
  }

  /** `lines` are the lines of the text after the one that ends at `le`. */
  ghost predicate PendingIs(text: string, le: int, lines: seq<string>)
    decreases |lines|
  {
    && IsLineEnd(text, le)
    && if lines == [] then le + 1 >= |text|
       else
         && le + 1 < |text|
         && text[le + 1..LineEndFrom(text, le + 1)] == lines[0]
         && PendingIs(text, LineEndFrom(text, le + 1), lines[1..])
  }

  /** `text.substring(from, to)` for the bounds the parser uses. */
  function Substring(text: string, from: nat, to: int): string
    requires to <= |text|
  {
    if from <= to then text[from..to] else ""
  }

  lemma PendingNext(text: string, le: int, lines: seq<string>)
    requires PendingIs(text, le, lines)
    ensures IsLineEnd(text, le) && (lines == [] <==> le + 1 >= |text|)
    ensures le + 1 < |text| ==>
              && text[le + 1..LineEndFrom(text, le + 1)] == lines[0]
              && PendingIs(text, LineEndFrom(text, le + 1), lines[1..])
  {
  }

  /** Finding the end of the line in the text is finding it in what is left of the text. */
  lemma LineEndIs(text: string, ls: nat)
    requires ls < |text|
    ensures var le := LineEndFrom(text, ls);
            && text[ls..le] == FirstLine(text[ls..])
            && AfterLine(text[ls..]) == if le + 1 <= |text| then text[le + 1..] else ""
  {
    var unread, le := text[ls..], LineEndFrom(text, ls);
    assert forall k :: 0 <= k < |unread| ==> unread[k] == text[ls + k];
    assert forall k :: 0 <= k < le - ls ==> unread[k] in text[ls..le];
    assert LineEnd(unread) == le - ls;
    assert text[ls..le] == unread[..le - ls];
    if le < |text| {
      assert text[le + 1..] == unread[le - ls + 1..];
    }
  }

  /** Seen from a line end, what is pending are the lines of the remaining text. */
  lemma {:induction false} PendingLines(text: string, le: int)
    requires -1 <= le <= |text| && IsLineEnd(text, le)
    ensures PendingIs(text, le, if le + 1 <= |text| then Lines(text[le + 1..]) else [])
    decreases |text| - le
  {
    hide FirstLine, AfterLine, LineEndFrom, IsLineEnd;
    if le + 1 < |text| {
      var lines, next := Lines(text[le + 1..]), LineEndFrom(text, le + 1);
      LineEndIs(text, le + 1);
      PendingLines(text, next);
      assert lines[0] == text[le + 1..next];
      assert lines[1..] == Lines(AfterLine(text[le + 1..]));
      assert next == |text| ==> Lines(AfterLine(text[le + 1..])) == [];
    }
  }

  lemma AllPending(text: string)
    ensures PendingIs(text, -1, Lines(text))
  {
    hide Lines, PendingIs;
    PendingLines(text, -1);
    assert text[0..] == text;
  }

  /** Looking for a newline-free prefix of the text from `ls` is looking in the line. */
  lemma StartsWithinLine(text: string, ls: nat, le: nat, search: string)
    requires ls <= le <= |text| && '\n' !in search && IsLineEnd(text, le)
    ensures (ls + |search| <= |text| && text[ls..ls + |search|] == search) == StartsWith(text[ls..le], search)
  {
    if ls + |search| <= le {
      assert text[ls..ls + |search|] == text[ls..le][..|search|];
    } else if ls + |search| <= |text| {
      assert text[ls..ls + |search|][le - ls] == '\n';
    }
  }

  lemma EndsWithinLine(text: string, ls: nat, le: nat, search: string)
    requires ls <= le <= |text| && |search| <= le - ls
    ensures EndsWith(text[..le], search) == EndsWith(text[ls..le], search)
  {
    assert text[..le][le - |search|..] == text[ls..le][le - ls - |search|..];
  }

  /** What is pending tells where the pointer stands. */
  lemma {:induction false} SameLineEnd(text: string, le: int, le': int, lines: seq<string>)
    requires PendingIs(text, le, lines) && PendingIs(text, le', lines)
    ensures le == le'
    decreases |lines|
  {
    if lines != [] {
      SameLineEnd(text, LineEndFrom(text, le + 1), LineEndFrom(text, le' + 1), lines[1..]);
      assert |text[le + 1..LineEndFrom(text, le + 1)]| == |text[le' + 1..LineEndFrom(text, le' + 1)]|;
    }
  }

  lemma SplitSlice(text: string, from: nat, next: nat, le: nat)
    requires from <= next < le <= |text| && text[next] == '\n'
    ensures text[from..le] == text[from..next] + ['\n'] + text[next + 1..le]
  {
  }

  /** Between two line ends the text is the lines in between, joined. */
  lemma {:induction false} SubstringJoins(text: string, from: int, le: int, read: seq<string>, rest: seq<string>)
    requires PendingIs(text, from, read + rest) && PendingIs(text, le, rest)
    ensures le <= |text| && if read == [] then from == le else from < le
    ensures Substring(text, from + 1, le) == Join(read, '\n')
    decreases |read|
  {
    if read == [] {
      assert read + rest == rest;
      SameLineEnd(text, from, le, rest);
    } else {
      var next := LineEndFrom(text, from + 1);
      assert (read + rest)[1..] == read[1..] + rest;
      SubstringJoins(text, next, le, read[1..], rest);
      if |read| > 1 {
        SplitSlice(text, from + 1, next, le);
      }
    }
  }

  // ---------------------------------------------------------------- the pointer machine

  class DiffParser {
    // Line start pointer
    var ls: nat
    // Line end pointer: the newline that ends the current line, the end of the
    // text, or -1 before the first line
    var le: int
    var text: string

    // The lines that have not been read
    ghost var pending: seq<string>

    ghost predicate Valid()
      reads this
    {
      PendingIs(text, le, pending)
    }

    constructor ()
      ensures Valid() && ls == 0 && le == -1 && text == ""
    {
      ls, le, text, pending := 0, -1, "", [];
    }

    method Reset()
      modifies this
      ensures Valid() && ls == 0 && le == -1 && text == ""
    {
      ls, le, text, pending := 0, -1, "", [];
    }

    method NextLine() returns (ok: bool)
      requires Valid()
      modifies `ls, `le, `pending
      ensures Valid()
      ensures old(pending) == [] ==> pending == [] && !ok
      ensures old(pending) != [] ==>
                && ls <= le && pending == old(pending)[1..]
                && text[ls..le] == old(pending)[0]
                && ok == (old(pending)[0] != "")
    {
      hide PendingIs, IndexOf;
      PendingNext(text, le, pending);
      ls := le + 1;
      if ls >= |text| {
        return false;
      }
      le := IndexOf(text, '\n', ls);
      if le == -1 {
        le := |text|;
      }
      assert le == LineEndFrom(text, ls);
      pending := pending[1..];
      return ls != le;
    }

    method ReadLine() returns (line: Option<string>)
      requires Valid()
      modifies `ls, `le, `pending
      ensures Valid()
      ensures pending == if old(pending) == [] then [] else old(pending)[1..]
      ensures line == if old(pending) == [] || old(pending)[0] == "" then None else Some(old(pending)[0])
    {
      var ok := NextLine();
      line := if ok then Some(text[ls..le]) else None;
    }

    /** The first character of the next line, its newline if it is empty. */
    method Peek() returns (c: Option<char>)
      requires Valid()
      ensures pending == [] ==> c == None
      ensures pending != [] ==> c == Some(if pending[0] == "" then '\n' else pending[0][0])
    {
      var p := le + 1;
      c := if p < |text| then Some(text[p]) else None;
      assert pending != [] && pending[0] != "" ==> pending[0][0] == text[p];
    }

    /** `text.startsWith(search, ls)` */
    method LineStartsWith(search: string) returns (b: bool)
      requires Valid() && ls <= le && '\n' !in search
      ensures b == StartsWith(text[ls..le], search)
    {
      b := ls + |search| <= |text| && text[ls..ls + |search|] == search;
      StartsWithinLine(text, ls, le, search);
    }

    /** `text.endsWith(search, le)`, which may look back over the start of the line. */
    method LineEndsWith(search: string) returns (b: bool)
      requires ls <= le <= |text|
      ensures b == EndsWith(text[..le], search)
    {
      b := |search| <= le && text[le - |search|..le] == search;
      if |search| <= le {
        assert text[le - |search|..le] == text[..le][le - |search|..];
      }
    }

    method ClassifyLine() returns (info: Option<HeaderInfo>)
      requires Valid() && ls <= le
      ensures info == HeaderKind(text[ls..le])
    {
      var binary := LineStartsWith("Binary files ");
      if binary {
        EndsWithinLine(text, ls, le, "differ");
        binary := LineEndsWith("differ");
      }
      if binary {
        return Some(BinaryHeader);
      }
      var plus := LineStartsWith("+++");
      info := if plus then Some(TextHeader) else None;
    }

    method ParseDiffHeader() returns (info: HeaderInfo)
      requires Valid()
      modifies `ls, `le, `pending
      ensures Valid()
      ensures info == ScanHeader(old(pending)).0 && pending == old(pending)[ScanHeader(old(pending)).1..]
    {
      hide PendingIs, HeaderKind;
      ghost var lines := pending;
      ghost var read := 0;
      while true
        invariant Valid() && read <= |lines|
        invariant pending == lines[read..]
        invariant ScanHeader(lines) == (ScanHeader(lines[read..]).0, ScanHeader(lines[read..]).1 + read)
        decreases |lines| - read
      {
        var ok := NextLine();
        if !ok {
          return NoHeader;
        }
        assert lines[read..][1..] == lines[read + 1..];
        read := read + 1;
        var kind := ClassifyLine();
        if kind.Some? {
          return kind.value;
        }
      }
    }

    method ParseHunk(linesConsumed: nat) returns (r: Result<DiffHunk, ParseError>)
      requires Valid()
      modifies `ls, `le, `pending
      ensures Valid()
      ensures match ReadHunk(old(pending), linesConsumed)
              case Success((hunk, rest)) => r == Success(hunk) && pending == rest
              case Failure(e) => r == Failure(e)
    {
      hide ParseHunkHeader, PendingIs;
      var headerLine := ReadLine();
      if headerLine.None? {
        return Failure(EndOfDiff);
      }
      var parsed := ParseHunkHeader(headerLine.value);
      if parsed.Failure? {
        return Failure(parsed.error);
      }
      var header := parsed.value;
      var body := ParseBody(header, [HeaderLine(headerLine.value)], linesConsumed);
      if body.Failure? {
        return Failure(body.error);
      }
      var lines := body.value;
      if |lines| == 1 {
        return Failure(EmptyHunk);
      }
      r := Success(DiffHunk(header, lines, linesConsumed, linesConsumed + |lines| - 1));
    }

    /** The loop of `ParseHunk`: reads body lines and keeps the rolling counters. */
    method ParseBody(header: HunkHeader, headerLines: seq<DiffLine>, linesConsumed: nat)
      returns (r: Result<seq<DiffLine>, ParseError>)
      requires Valid() && headerLines != []
      modifies `ls, `le, `pending
      ensures Valid()
      ensures match ReadBody(old(pending), headerLines, StartCounters(header, linesConsumed))
              case Success((lines, rest)) => r == Success(lines) && pending == rest
              case Failure(e) => r == Failure(e)
    {
      hide PendingIs;
      var lines := headerLines;
      var rollingDiffBeforeCounter := header.oldStartLine;
      var rollingDiffAfterCounter := header.newStartLine;
      var diffLineNumber := linesConsumed;
      ghost var whole := ReadBody(pending, lines, StartCounters(header, linesConsumed));

      var c := Peek();
      while c.Some? && IsLinePrefix(c.value)
        invariant Valid()
        invariant lines != []
        invariant pending == [] ==> c == None
        invariant pending != [] ==> c == Some(if pending[0] == "" then '\n' else pending[0][0])
        invariant whole ==
                  ReadBody(pending, lines, Counters(rollingDiffBeforeCounter, rollingDiffAfterCounter, diffLineNumber))
        decreases |pending|
      {
        var line := ReadLine();
        assert line.Some?;

        if c.value == '\\' {
          if |line.value| < 12 {
            return Failure(ShortNoNewlineMarker);
          }
          var previousLineIndex := |lines| - 1;
          var previousLine := lines[previousLineIndex];
          lines := lines[previousLineIndex := previousLine.(noTrailingNewLine := true)];
        } else {
          diffLineNumber := diffLineNumber + 1;
          var diffLine: DiffLine;
          if c.value == '+' {
            diffLine := DiffLine(line.value, Add, diffLineNumber, None, Some(rollingDiffAfterCounter), false);
            rollingDiffAfterCounter := rollingDiffAfterCounter + 1;
          } else if c.value == '-' {
            diffLine := DiffLine(line.value, Delete, diffLineNumber, Some(rollingDiffBeforeCounter), None, false);
            rollingDiffBeforeCounter := rollingDiffBeforeCounter + 1;
          } else {
            diffLine := DiffLine(line.value, Context, diffLineNumber,
                                 Some(rollingDiffBeforeCounter), Some(rollingDiffAfterCounter), false);
            rollingDiffBeforeCounter := rollingDiffBeforeCounter + 1;
            rollingDiffAfterCounter := rollingDiffAfterCounter + 1;
          }
          lines := lines + [diffLine];
        }
        c := Peek();
      }
      r := Success(lines);
    }

    method ParseHunks() returns (r: Result<seq<DiffHunk>, ParseError>)
      requires Valid()
      modifies `ls, `le, `pending
      ensures Valid()
      ensures r == ReadHunks(old(pending), 0)
      ensures r.Success? ==> pending == []
    {
      hide ReadHunk, PendingIs;
      var hunks := [];
      var linesConsumed: nat := 0;
      var more := true;
      ghost var lines := pending;
      PrependNone(ReadHunks(lines, 0));
      while more
        invariant Valid()
        invariant more ==> ReadHunks(lines, 0) == Prepend(hunks, ReadHunks(pending, linesConsumed))
        invariant !more ==> ReadHunks(lines, 0) == Success(hunks) && pending == []
        decreases more, |pending|
      {
        ghost var unread := pending;
        var hunk := ParseHunk(linesConsumed);
        if hunk.Failure? {
          return Failure(hunk.error);
        }
        PrependTwice(hunks, [hunk.value], ReadHunks(pending, linesConsumed + |hunk.value.lines|));
        hunks := hunks + [hunk.value];
        linesConsumed := linesConsumed + |hunk.value.lines|;
        var c := Peek();
        more := c.Some?;
      }
      r := Success(hunks);
    }

    /** Parses a whole diff. Whatever happens the parser is reset at the end. */
    method Parse(diff: string) returns (r: Result<RawDiff, ParseError>)
      requires le == -1
      modifies this
      ensures r == ParseText(diff)
      ensures Valid() && ls == 0 && le == -1 && text == ""
    {
      hide PendingIs, RemoveAll, Join, Lines, ScanHeader, ReadHunks;
      text, pending := diff, Lines(diff);
      AllPending(diff);
      var headerInfo := ParseDiffHeader();
      var headerEnd := le;
      ghost var lines, n := Lines(diff), ScanHeader(Lines(diff)).1;
      assert lines == lines[..n] + pending;
      SubstringJoins(text, -1, headerEnd, lines[..n], pending);
      var header := Substring(text, 0, headerEnd);

      if headerInfo != TextHeader {
        Reset();
        return Success(RawDiff(header, "", [], headerInfo == BinaryHeader));
      }

      ghost var body := pending;
      var hunks := ParseHunks();
      if hunks.Failure? {
        Reset();
        return Failure(hunks.error);
      }
      assert body + [] == body;
      SubstringJoins(text, headerEnd, le, body, []);
      var contents := RemoveAll(Substring(text, headerEnd + 1, le), "\n" + NoNewlineMarker);
      Reset();
      r := Success(RawDiff(header, contents, hunks.value, false));
    }
  }
}
