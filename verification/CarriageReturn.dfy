/** Carriage returns as a terminal shows them (app/src/lib/parse-carriage-return.ts). */
module CarriageReturn {
  import opened Text

  // ---------------------------------------------------------------- the fold

  /** `cur` written over `buf` from its start. */
  function Overwrite(buf: string, cur: string): string {
    if |cur| >= |buf| then cur else cur + buf[|cur|..]
  }

  /** `parts.reduce(Overwrite)`, once `buf` is what the earlier parts make. */
  function Reduce(buf: string, parts: seq<string>): string
    decreases |parts|
  {
    if parts == [] then buf else Reduce(Overwrite(buf, parts[0]), parts[1..])
  }

  function ParseLine(line: string): string {
    var parts := Split(line, '\r');
    Reduce(parts[0], parts[1..])
  }

  function ParseLines(lines: seq<string>): (r: seq<string>)
    ensures |r| == |lines|
  {
    if lines == [] then [] else [ParseLine(lines[0])] + ParseLines(lines[1..])
  }

  function ParseCarriageReturn(text: string): string {
    if IndexOf(text, '\r', 0) < 0 then text
    else Join(ParseLines(Split(text, '\n')), '\n')
  }

  // ---------------------------------------------------------------- the terminal

  /** Finished lines, each with its newline; the current line; the cursor's column in it. */
  datatype Terminal = Terminal(finished: string, line: string, column: nat)

  function Type(t: Terminal, c: char): Terminal {
    if c == '\n' then Terminal(t.finished + t.line + "\n", "", 0)
    else if c == '\r' then t.(column := 0)
    else t.(line := if t.column < |t.line| then t.line[t.column := c] else t.line + [c], column := t.column + 1)
  }

  function TypeAll(t: Terminal, text: string): Terminal
    decreases |text|
  {
    if text == "" then t else TypeAll(Type(t, text[0]), text[1..])
  }

  /** What is on the screen after typing a text on an empty terminal. */
  function Screen(text: string): string {
    var t := TypeAll(Terminal("", "", 0), text);
    t.finished + t.line
  }

  // ---------------------------------------------------------------- the two agree

  lemma {:induction false} TypeConcat(t: Terminal, x: string, y: string)
    ensures TypeAll(t, x + y) == TypeAll(TypeAll(t, x), y)
    decreases |x|
  {
    if x == "" {
      assert x + y == y;
    } else {
      assert (x + y)[1..] == x[1..] + y;
      TypeConcat(Type(t, x[0]), x[1..], y);
    }
  }

  predicate Plain(s: string) {
    forall i :: 0 <= i < |s| ==> s[i] != '\n' && s[i] != '\r'
  }

  /** The line after plain text has been typed from a column within it. */
  function Typed(line: string, column: nat, s: string): string
    requires column <= |line|
  {
    line[..column] + s + if column + |s| < |line| then line[column + |s|..] else ""
  }

  lemma {:induction false} TypePlain(t: Terminal, s: string)
    requires Plain(s) && t.column <= |t.line|
    ensures TypeAll(t, s) == Terminal(t.finished, Typed(t.line, t.column, s), t.column + |s|)
    decreases |s|
  {
    if s == "" {
      assert Typed(t.line, t.column, s) == t.line;
    } else {
      var next := Type(t, s[0]);
      TypePlain(next, s[1..]);
      assert Typed(next.line, next.column, s[1..]) == Typed(t.line, t.column, s);
    }
  }

  lemma TypePart(t: Terminal, s: string)
    requires Plain(s) && t.column == 0
    ensures TypeAll(t, s) == Terminal(t.finished, Overwrite(t.line, s), |s|)
  {
    hide TypeAll;
    TypePlain(t, s);
    assert t.line[..0] == "" && "" + s == s;
    assert |s| >= |t.line| ==> s + "" == s;
  }

  /** Typing parts with a carriage return before each is the fold. */
  lemma {:induction false} TypeParts(t: Terminal, first: string, rest: seq<string>)
    requires Plain(first) && (forall i :: 0 <= i < |rest| ==> Plain(rest[i])) && t.column == 0
    ensures var r := TypeAll(t, Join([first] + rest, '\r'));
            r.finished == t.finished && r.line == Reduce(Overwrite(t.line, first), rest)
    decreases |rest|
  {
    TypePart(t, first);
    var parts := [first] + rest;
    if rest == [] {
      assert Join(parts, '\r') == first;
    } else {
      assert parts[1..] == rest == [rest[0]] + rest[1..];
      var text := Join(rest, '\r');
      assert Join(parts, '\r') == first + ['\r'] + text;
      TypeConcat(t, first + ['\r'], text);
      TypeConcat(t, first, ['\r']);
      var after := Terminal(t.finished, Overwrite(t.line, first), 0);
      assert TypeAll(TypeAll(t, first), ['\r']) == after by {
        assert ['\r'][1..] == "";
      }
      TypeParts(after, rest[0], rest[1..]);
    }
  }

  /** Typing one line at the start of an empty line. */
  lemma TypeLine(finished: string, line: string)
    requires '\n' !in line
    ensures var r := TypeAll(Terminal(finished, "", 0), line);
            r.finished == finished && r.line == ParseLine(line)
  {
    hide Split, Join, Reduce, TypeAll;
    JoinSplit(line, '\r');
    var parts := Split(line, '\r');
    PartsArePlain(line, parts);
    assert parts == [parts[0]] + parts[1..];
    TypeParts(Terminal(finished, "", 0), parts[0], parts[1..]);
    assert Overwrite("", parts[0]) == parts[0];
  }

  lemma PartsArePlain(line: string, parts: seq<string>)
    requires '\n' !in line && Join(parts, '\r') == line && forall p :: p in parts ==> '\r' !in p
    ensures forall i :: 0 <= i < |parts| ==> Plain(parts[i])
  {
    forall i | 0 <= i < |parts|
      ensures Plain(parts[i])
    {
      assert parts[i] in parts;
      PartInJoin(parts, '\r', i);
    }
  }

  /** The characters of a part are characters of the joined text. */
  lemma {:induction false} PartInJoin(parts: seq<string>, sep: char, i: nat)
    requires i < |parts|
    ensures forall c :: c in parts[i] ==> c in Join(parts, sep)
  {
    if |parts| > 1 && i > 0 {
      PartInJoin(parts[1..], sep, i - 1);
    }
  }

  /** Typing lines with a newline between them, from an empty line on. */
  lemma {:induction false} TypeLines(finished: string, lines: seq<string>)
    requires lines != [] && forall l :: l in lines ==> '\n' !in l
    ensures var r := TypeAll(Terminal(finished, "", 0), Join(lines, '\n'));
            r.finished + r.line == finished + Join(ParseLines(lines), '\n')
    decreases |lines|
  {
    hide ParseLine, TypeAll;
    var t := Terminal(finished, "", 0);
    TypeLine(finished, lines[0]);
    var parsed := ParseLines(lines);
    if |lines| > 1 {
      var text := Join(lines[1..], '\n');
      var next := finished + ParseLine(lines[0]) + "\n";
      TypeConcat(t, lines[0] + ['\n'], text);
      TypeConcat(t, lines[0], ['\n']);
      TypeNewline(TypeAll(t, lines[0]));
      TypeLines(next, lines[1..]);
      assert parsed[1..] == ParseLines(lines[1..]);
      assert finished + (ParseLine(lines[0]) + ['\n'] + Join(parsed[1..], '\n')) == next + Join(parsed[1..], '\n');
    }
  }

  lemma TypeNewline(t: Terminal)
    ensures TypeAll(t, ['\n']) == Terminal(t.finished + t.line + "\n", "", 0)
  {
    assert ['\n'][1..] == "";
  }

  lemma {:induction false} NothingToParse(lines: seq<string>)
    requires forall l :: l in lines ==> '\r' !in l
    ensures ParseLines(lines) == lines
  {
    if lines != [] {
      SplitOne(lines[0], '\r');
      NothingToParse(lines[1..]);
    }
  }

  /** For every text, with or without carriage returns, the result is what a terminal
      shows when the text is typed character by character. */
  lemma ShowsWhatATerminalShows(text: string)
    ensures ParseCarriageReturn(text) == Screen(text)
  {
    hide ParseLines, Join, Split, TypeAll;
    var lines := Split(text, '\n');
    JoinSplit(text, '\n');
    TypeLines("", lines);
    assert "" + Join(ParseLines(lines), '\n') == Join(ParseLines(lines), '\n');
    if IndexOf(text, '\r', 0) < 0 {
      forall l | l in lines
        ensures '\r' !in l
      {
        var i :| 0 <= i < |lines| && lines[i] == l;
        PartInJoin(lines, '\n', i);
      }
      NothingToParse(lines);
    }
  }
}
