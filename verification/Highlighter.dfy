/** The syntax highlighting worker (app/src/highlighter/index.ts): tokenizing all
    lines, or only as much as the requested lines need. */
module Highlighter {
  import opened Text

  /** Where a mode is asked for a token: all lines (modes may look ahead), the line,
      the start of the token, and the position of the stream. */
  datatype Cursor = Cursor(lines: seq<string>, line: nat, start: nat, pos: nat)

  /** What a mode's `token` does: where it leaves the stream, the state it leaves, and
      the style it returns ("" when it returns none). */
  datatype Step<S> = Step(pos: nat, state: S, style: string)

  /** A deterministic CodeMirror mode. A mode without a start state keeps none: its
      state is a constant. A mode without `blankLine` has the identity there. */
  datatype Mode<!S> = Mode(
    stateful: bool,
    start: S,
    token: (Cursor, S) -> Step<S>,
    blankLine: S -> S,
    innerName: S -> string)

  datatype Span = Span(length: nat, token: string)

  type Spans = map<nat, Span>
  type Tokens = map<nat, Spans>

  datatype HighlightError = FailedToAdvance

  /** The state after a call that leaves `after`, which only a stateful mode can change. */
  function Keep<S>(mode: Mode<S>, before: S, after: S): S {
    if mode.stateful then after else before
  }

  // ---------------------------------------------------------------- what a run returns

  /** Up to `left` attempts at a token: attempts that do not advance past the start are repeated. */
  function Attempts<S>(mode: Mode<S>, c: Cursor, s: S, addModeClass: bool, left: nat): (r: Result<Step<S>, HighlightError>)
    ensures r.Success? ==> r.value.pos > c.start
    decreases left
  {
    if left == 0 then Failure(FailedToAdvance)
    else
      var name := if addModeClass then mode.innerName(s) else "";
      var t := mode.token(c, s);
      var after := Keep(mode, s, t.state);
      if t.pos > c.start then
        Success(Step(t.pos, after, if t.style != "" && name != "" then "m-" + name + " " + t.style else t.style))
      else Attempts(mode, c.(pos := t.pos), after, addModeClass, left - 1)
  }

  /** The tokens of a line from `start` on, and the state after the line. */
  function LineTokens<S>(mode: Mode<S>, lines: seq<string>, ix: nat, start: nat, s: S, addModeClass: bool):
    Result<(Spans, S), HighlightError>
    requires ix < |lines|
    decreases |lines[ix]| - start
  {
    if start >= |lines[ix]| then Success((map[], s))
    else
      var t :- Attempts(mode, Cursor(lines, ix, start, start), s, addModeClass, 10);
      var (rest, last) :- LineTokens(mode, lines, ix, t.pos, t.state, addModeClass);
      Success((if t.style != "" then rest[start := Span(t.pos - start, t.style)] else rest, last))
  }

  function VisitLine<S>(mode: Mode<S>, lines: seq<string>, ix: nat, s: S, addModeClass: bool): Result<(Spans, S), HighlightError>
    requires ix < |lines|
  {
    if lines[ix] == "" then Success((map[], Keep(mode, s, mode.blankLine(s))))
    else LineTokens(mode, lines, ix, 0, s, addModeClass)
  }

  /** All tokens of the lines from `ix` on: what a run without requested lines returns. */
  function FullRun<S>(mode: Mode<S>, lines: seq<string>, ix: nat, s: S, addModeClass: bool): Result<Tokens, HighlightError>
    decreases |lines| - ix
  {
    if ix >= |lines| then Success(map[])
    else
      var (spans, after) :- VisitLine(mode, lines, ix, s, addModeClass);
      var rest :- FullRun(mode, lines, ix + 1, after, addModeClass);
      Success(if spans == map[] then rest else rest[ix := spans])
  }

  function MaxOf(xs: seq<int>): (m: int)
    requires xs != []
    ensures m in xs && forall x :: x in xs ==> x <= m
  {
    if |xs| == 1 then xs[0]
    else
      var m := MaxOf(xs[1..]);
      assert forall x :: x in xs ==> x == xs[0] || x in xs[1..];
      if xs[0] > m then xs[0] else m
  }

  /** A run for requested lines: it stops after the last of them, and a stateless mode
      skips lines that are not requested. */
  function FilteredRun<S>(mode: Mode<S>, lines: seq<string>, requested: seq<int>, ix: nat, s: S, addModeClass: bool):
    Result<Tokens, HighlightError>
    requires requested != []
    decreases |lines| - ix
  {
    if ix >= |lines| || ix > MaxOf(requested) then Success(map[])
    else if !mode.stateful && ix !in requested then FilteredRun(mode, lines, requested, ix + 1, s, addModeClass)
    else
      var (spans, after) :- VisitLine(mode, lines, ix, s, addModeClass);
      var rest :- FilteredRun(mode, lines, requested, ix + 1, after, addModeClass);
      Success(if spans == map[] || ix !in requested then rest else rest[ix := spans])
  }

  /** The run from line `ix` on; no requested lines means all lines. */
  function Remaining<S>(mode: Mode<S>, lines: seq<string>, requested: seq<int>, ix: nat, s: S, addModeClass: bool):
    Result<Tokens, HighlightError>
  {
    if requested == [] then FullRun(mode, lines, ix, s, addModeClass)
    else FilteredRun(mode, lines, requested, ix, s, addModeClass)
  }

  function RunFor<S>(mode: Mode<S>, lines: seq<string>, requested: seq<int>, addModeClass: bool): Result<Tokens, HighlightError> {
    Remaining(mode, lines, requested, 0, mode.start, addModeClass)
  }

  function Restrict(tokens: Tokens, requested: seq<int>): Tokens {
    map ix | ix in tokens && ix in requested :: tokens[ix]
  }

  // ---------------------------------------------------------------- filtered refines full

  lemma {:induction false} FullRunKeys<S>(mode: Mode<S>, lines: seq<string>, ix: nat, s: S, addModeClass: bool)
    ensures var r := FullRun(mode, lines, ix, s, addModeClass);
            r.Success? ==> forall k :: k in r.value ==> ix <= k < |lines|
    decreases |lines| - ix
  {
    hide VisitLine;
    if ix < |lines| {
      var v := VisitLine(mode, lines, ix, s, addModeClass);
      if v.Success? {
        var (spans, after) := v.value;
        FullRunKeys(mode, lines, ix + 1, after, addModeClass);
        var rest := FullRun(mode, lines, ix + 1, after, addModeClass);
        assert rest.Success? ==>
            FullRun(mode, lines, ix, s, addModeClass) == Success(if spans == map[] then rest.value else rest.value[ix := spans]);
      }
    }
  }

  lemma {:induction false} StatelessAttempts<S>(mode: Mode<S>, c: Cursor, s: S, addModeClass: bool, left: nat)
    requires !mode.stateful
    ensures var r := Attempts(mode, c, s, addModeClass, left); r.Success? ==> r.value.state == s
    decreases left
  {
    if left != 0 {
      StatelessAttempts(mode, c.(pos := mode.token(c, s).pos), s, addModeClass, left - 1);
    }
  }

  lemma {:induction false} StatelessLine<S>(mode: Mode<S>, lines: seq<string>, ix: nat, start: nat, s: S, addModeClass: bool)
    requires !mode.stateful && ix < |lines|
    ensures var r := LineTokens(mode, lines, ix, start, s, addModeClass); r.Success? ==> r.value.1 == s
    decreases |lines[ix]| - start
  {
    hide Attempts;
    if start < |lines[ix]| {
      StatelessAttempts(mode, Cursor(lines, ix, start, start), s, addModeClass, 10);
      var t := Attempts(mode, Cursor(lines, ix, start, start), s, addModeClass, 10);
      if t.Success? {
        StatelessLine(mode, lines, ix, t.value.pos, s, addModeClass);
      }
    }
  }

  /** Whatever the mode, if tokenizing everything from line `ix` on succeeds, the run for
      the requested lines succeeds with exactly the tokens of the requested lines. */
  lemma {:induction false} FilteredRefinesFull<S>(mode: Mode<S>, lines: seq<string>, requested: seq<int>, ix: nat, s: S,
                                                  addModeClass: bool)
    requires requested != []
    requires FullRun(mode, lines, ix, s, addModeClass).Success?
    ensures FilteredRun(mode, lines, requested, ix, s, addModeClass) ==
            Success(Restrict(FullRun(mode, lines, ix, s, addModeClass).value, requested))
    decreases |lines| - ix
  {
    hide VisitLine;
    FullRunKeys(mode, lines, ix, s, addModeClass);
    var full := FullRun(mode, lines, ix, s, addModeClass).value;
    if ix >= |lines| || ix > MaxOf(requested) {
      assert Restrict(full, requested) == map[];
    } else {
      var (spans, after) := VisitLine(mode, lines, ix, s, addModeClass).value;
      var rest := FullRun(mode, lines, ix + 1, after, addModeClass).value;
      FullRunKeys(mode, lines, ix + 1, after, addModeClass);
      if !mode.stateful {
        StatelessVisit(mode, lines, ix, s, addModeClass);
      }
      FilteredRefinesFull(mode, lines, requested, ix + 1, after, addModeClass);
      if spans == map[] || ix !in requested {
        assert Restrict(full, requested) == Restrict(rest, requested);
      } else {
        assert Restrict(full, requested) == Restrict(rest, requested)[ix := spans];
      }
    }
  }

  lemma StatelessVisit<S>(mode: Mode<S>, lines: seq<string>, ix: nat, s: S, addModeClass: bool)
    requires !mode.stateful && ix < |lines|
    ensures var r := VisitLine(mode, lines, ix, s, addModeClass); r.Success? ==> r.value.1 == s
  {
    StatelessLine(mode, lines, ix, 0, s, addModeClass);
  }

  /** The answer to a request for some lines is the answer to the request for all,
      restricted to those lines. */
  lemma RequestedLinesOnly<S>(mode: Mode<S>, lines: seq<string>, requested: seq<int>, addModeClass: bool)
    requires requested != [] && RunFor(mode, lines, [], addModeClass).Success?
    ensures RunFor(mode, lines, requested, addModeClass) ==
            Success(Restrict(RunFor(mode, lines, [], addModeClass).value, requested))
  {
    FilteredRefinesFull(mode, lines, requested, 0, mode.start, addModeClass);
  }

  // ---------------------------------------------------------------- spans

  /** Spans start inside the line at or after `start`, are non-empty, and do not overlap. */
  predicate OrderedSpans(spans: Spans, start: nat, length: nat) {
    && (forall k :: k in spans ==> start <= k < length && spans[k].length > 0)
    && forall j, k :: j in spans && k in spans && j < k ==> j + spans[j].length <= k
  }

  lemma {:induction false} LineSpansOrdered<S>(mode: Mode<S>, lines: seq<string>, ix: nat, start: nat, s: S, addModeClass: bool)
    requires ix < |lines|
    ensures var r := LineTokens(mode, lines, ix, start, s, addModeClass);
            r.Success? ==> OrderedSpans(r.value.0, start, |lines[ix]|)
    decreases |lines[ix]| - start
  {
    hide Attempts;
    if start < |lines[ix]| {
      var t := Attempts(mode, Cursor(lines, ix, start, start), s, addModeClass, 10);
      if t.Success? {
        LineSpansOrdered(mode, lines, ix, t.value.pos, t.value.state, addModeClass);
      }
    }
  }

  predicate AllOrdered(tokens: Tokens, lines: seq<string>) {
    forall k :: k in tokens ==> k < |lines| && OrderedSpans(tokens[k], 0, |lines[k]|)
  }

  lemma {:induction false} RemainingOrdered<S>(mode: Mode<S>, lines: seq<string>, requested: seq<int>, ix: nat, s: S,
                                               addModeClass: bool)
    ensures var r := Remaining(mode, lines, requested, ix, s, addModeClass);
            r.Success? ==> AllOrdered(r.value, lines)
    decreases |lines| - ix
  {
    hide VisitLine, OrderedSpans;
    if ix < |lines| {
      VisitedSpansOrdered(mode, lines, ix, s, addModeClass);
      RemainingOrdered(mode, lines, requested, ix + 1, s, addModeClass);
      var v := VisitLine(mode, lines, ix, s, addModeClass);
      if v.Success? {
        RemainingOrdered(mode, lines, requested, ix + 1, v.value.1, addModeClass);
      }
    }
  }

  /** In every answer, to any request, the spans of a line start in the line and are
      non-empty, ordered and disjoint. */
  lemma SpansOrdered<S>(mode: Mode<S>, lines: seq<string>, requested: seq<int>, addModeClass: bool)
    ensures var r := RunFor(mode, lines, requested, addModeClass);
            r.Success? ==> AllOrdered(r.value, lines)
  {
    RemainingOrdered(mode, lines, requested, 0, mode.start, addModeClass);
  }

  lemma VisitedSpansOrdered<S>(mode: Mode<S>, lines: seq<string>, ix: nat, s: S, addModeClass: bool)
    requires ix < |lines|
    ensures var r := VisitLine(mode, lines, ix, s, addModeClass);
            r.Success? ==> OrderedSpans(r.value.0, 0, |lines[ix]|)
  {
    LineSpansOrdered(mode, lines, ix, 0, s, addModeClass);
  }

  /** The mode never leaves the stream past the end of the line it is given. */
  ghost predicate StaysInLine<S(!new)>(mode: Mode<S>) {
    forall c: Cursor, s: S :: c.line < |c.lines| && c.pos <= |c.lines[c.line]| ==> mode.token(c, s).pos <= |c.lines[c.line]|
  }

  lemma {:induction false} AttemptsStayInLine<S(!new)>(mode: Mode<S>, c: Cursor, s: S, addModeClass: bool, left: nat)
    requires StaysInLine(mode) && c.line < |c.lines| && c.pos <= |c.lines[c.line]|
    ensures var r := Attempts(mode, c, s, addModeClass, left); r.Success? ==> r.value.pos <= |c.lines[c.line]|
    decreases left
  {
    if left > 0 {
      var t := mode.token(c, s);
      AttemptsStayInLine(mode, c.(pos := t.pos), Keep(mode, s, t.state), addModeClass, left - 1);
    }
  }

  predicate EndInLine(spans: Spans, length: nat) {
    forall k :: k in spans ==> k + spans[k].length <= length
  }

  lemma {:induction false} LineSpansEndInLine<S(!new)>(mode: Mode<S>, lines: seq<string>, ix: nat, start: nat, s: S,
                                                       addModeClass: bool)
    requires ix < |lines| && StaysInLine(mode)
    ensures var r := LineTokens(mode, lines, ix, start, s, addModeClass);
            r.Success? ==> EndInLine(r.value.0, |lines[ix]|)
    decreases |lines[ix]| - start
  {
    hide Attempts, StaysInLine;
    if start < |lines[ix]| {
      var t := Attempts(mode, Cursor(lines, ix, start, start), s, addModeClass, 10);
      AttemptsStayInLine(mode, Cursor(lines, ix, start, start), s, addModeClass, 10);
      if t.Success? {
        LineSpansEndInLine(mode, lines, ix, t.value.pos, t.value.state, addModeClass);
      }
    }
  }

  /** With a mode that stays in its line, no span of an answer reaches past its line. */
  lemma {:induction false} SpansEndInLine<S(!new)>(mode: Mode<S>, lines: seq<string>, requested: seq<int>, ix: nat, s: S,
                                                   addModeClass: bool)
    requires StaysInLine(mode)
    ensures var r := Remaining(mode, lines, requested, ix, s, addModeClass);
            r.Success? ==> forall k :: k in r.value ==> k < |lines| && EndInLine(r.value[k], |lines[k]|)
    decreases |lines| - ix
  {
    hide LineTokens, EndInLine, StaysInLine;
    if ix < |lines| {
      SpansEndInLine(mode, lines, requested, ix + 1, s, addModeClass);
      LineSpansEndInLine(mode, lines, ix, 0, s, addModeClass);
      var v := VisitLine(mode, lines, ix, s, addModeClass);
      if v.Success? {
        assert v.value.0 != map[] ==> EndInLine(v.value.0, |lines[ix]|);
        SpansEndInLine(mode, lines, requested, ix + 1, v.value.1, addModeClass);
      }
    }
  }

  // ---------------------------------------------------------------- the worker

  method ReadToken<S>(mode: Mode<S>, lines: seq<string>, line: nat, start: nat, state: S, addModeClass: bool)
    returns (r: Result<Step<S>, HighlightError>)
    ensures r == Attempts(mode, Cursor(lines, line, start, start), state, addModeClass, 10)
  {
    var s := state;
    var pos: nat := start;
    for i := 0 to 10
      invariant Attempts(mode, Cursor(lines, line, start, pos), s, addModeClass, 10 - i) ==
                Attempts(mode, Cursor(lines, line, start, start), state, addModeClass, 10)
    {
      var innerModeName := if addModeClass then mode.innerName(s) else "";
      var t := mode.token(Cursor(lines, line, start, pos), s);
      s := Keep(mode, s, t.state);
      pos := t.pos;
      if pos > start {
        var token := if t.style != "" && innerModeName != "" then "m-" + innerModeName + " " + t.style else t.style;
        return Success(Step(pos, s, token));
      }
    }
    return Failure(FailedToAdvance);
  }

  /** Tokenizes one non-empty line; `keep` says whether its tokens are recorded. */
  method TokenizeLine<S>(mode: Mode<S>, lines: seq<string>, ix: nat, state: S, addModeClass: bool, keep: bool, tokens: Tokens)
    returns (r: Result<(Tokens, S), HighlightError>)
    requires ix < |lines| && ix !in tokens
    ensures match LineTokens(mode, lines, ix, 0, state, addModeClass)
            case Failure(e) => r == Failure(e)
            case Success((spans, after)) =>
              r == Success((Recorded(tokens, ix, spans, keep), after))
  {
    hide Attempts, Recorded, LineTokens;
    var s := state;
    var start: nat := 0;
    var result := tokens;
    ghost var found: Spans := map[];
    ghost var whole := LineTokens(mode, lines, ix, 0, state, addModeClass);
    JoinedNone(whole);
    RecordedNone(tokens, ix, keep);
    while start < |lines[ix]|
      invariant forall k :: k in found ==> k < start
      invariant result == Recorded(tokens, ix, found, keep)
      invariant whole == Joined(found, LineTokens(mode, lines, ix, start, s, addModeClass))
      decreases |lines[ix]| - start
    {
      LineStep(mode, lines, ix, start, s, addModeClass);
      var t := ReadToken(mode, lines, ix, start, s, addModeClass);
      if t.Failure? {
        return Failure(t.error);
      }
      var token := t.value.style;
      ghost var span := Span(t.value.pos - start, token);
      ghost var more := LineTokens(mode, lines, ix, t.value.pos, t.value.state, addModeClass);
      if more.Success? {
        JoinedStep(found, start, span, more.value.0);
      }
      RecordedStep(tokens, ix, found, start, span, keep);
      if token != "" && keep {
        var line := if ix in result then result[ix] else map[];
        result := result[ix := line[start := Span(t.value.pos - start, token)]];
      }
      if token != "" {
        found := found[start := span];
      }
      s := t.value.state;
      start := t.value.pos;
    }
    assert map[] + found == found;
    LineStep(mode, lines, ix, start, s, addModeClass);
    return Success((result, s));
  }

  /** `tokens` with the spans of a new line, which gets no entry when it has none. */
  function Recorded(tokens: Tokens, ix: nat, spans: Spans, keep: bool): Tokens {
    if keep && spans != map[] then tokens[ix := spans] else tokens
  }

  lemma RecordedNone(tokens: Tokens, ix: nat, keep: bool)
    ensures Recorded(tokens, ix, map[], keep) == tokens
  {
  }

  lemma RecordedStep(tokens: Tokens, ix: nat, found: Spans, start: nat, span: Span, keep: bool)
    requires ix !in tokens
    ensures Recorded(tokens, ix, found[start := span], keep) ==
            if !keep then Recorded(tokens, ix, found, keep)
            else
              var before := Recorded(tokens, ix, found, keep);
              before[ix := (if ix in before then before[ix] else map[])[start := span]]
  {
    assert start in found[start := span];
    assert tokens[ix := found][ix := found[start := span]] == tokens[ix := found[start := span]];
  }

  lemma LineStep<S>(mode: Mode<S>, lines: seq<string>, ix: nat, start: nat, s: S, addModeClass: bool)
    requires ix < |lines|
    ensures LineTokens(mode, lines, ix, start, s, addModeClass) ==
            if start >= |lines[ix]| then Success((map[], s))
            else
              match Attempts(mode, Cursor(lines, ix, start, start), s, addModeClass, 10)
              case Failure(e) => Failure(e)
              case Success(t) =>
                match LineTokens(mode, lines, ix, t.pos, t.state, addModeClass)
                case Failure(e) => Failure(e)
                case Success((rest, last)) =>
                  Success((if t.style != "" then rest[start := Span(t.pos - start, t.style)] else rest, last))
  {
    hide Attempts;
  }

  ghost function Joined<S>(found: Spans, r: Result<(Spans, S), HighlightError>): Result<(Spans, S), HighlightError> {
    match r
    case Failure(e) => Failure(e)
    case Success((rest, s)) => Success((rest + found, s))
  }

  lemma JoinedNone<S>(r: Result<(Spans, S), HighlightError>)
    ensures Joined(map[], r) == r
  {
    if r.Success? {
      assert r.value.0 + map[] == r.value.0;
    }
  }

  lemma JoinedStep(found: Spans, start: nat, span: Span, rest: Spans)
    requires start !in found
    ensures rest[start := span] + found == rest + found[start := span]
  {
  }

  method Highlight<S>(mode: Mode<S>, contentLines: seq<string>, requested: seq<int>, addModeClass: bool)
    returns (r: Result<Tokens, HighlightError>)
    ensures r == RunFor(mode, contentLines, requested, addModeClass)
  {
    hide LineTokens, MaxOf;
    var filtered := requested != [];
    var maxLine := if filtered then MaxOf(requested) else 0;
    var lines := contentLines;
    var state := mode.start;
    var tokens: Tokens := map[];
    ghost var whole := RunFor(mode, lines, requested, addModeClass);
    var ix := 0;
    AddedNone(whole);
    while ix < |lines|
      invariant 0 <= ix <= |lines|
      invariant forall k :: k in tokens ==> k < ix
      invariant whole == Added(tokens, Remaining(mode, lines, requested, ix, state, addModeClass))
    {
      if filtered && ix > maxLine {
        break;
      }
      if filtered && !mode.stateful && ix !in requested {
        ix := ix + 1;
        continue;
      }
      if |lines[ix]| == 0 {
        state := Keep(mode, state, mode.blankLine(state));
        ix := ix + 1;
        continue;
      }
      var keep := !filtered || ix in requested;
      ghost var visit := LineTokens(mode, lines, ix, 0, state, addModeClass);
      if visit.Success? {
        var rest := Remaining(mode, lines, requested, ix + 1, visit.value.1, addModeClass);
        if rest.Success? {
          AddedStep(tokens, ix, visit.value.0, rest.value);
        }
      }
      var line := TokenizeLine(mode, lines, ix, state, addModeClass, keep, tokens);
      if line.Failure? {
        return Failure(line.error);
      }
      tokens, state := line.value.0, line.value.1;
      ix := ix + 1;
    }
    assert map[] + tokens == tokens;
    return Success(tokens);
  }

  ghost function Added(tokens: Tokens, r: Result<Tokens, HighlightError>): Result<Tokens, HighlightError> {
    match r
    case Failure(e) => Failure(e)
    case Success(rest) => Success(rest + tokens)
  }

  lemma AddedStep(tokens: Tokens, ix: nat, spans: Spans, rest: Tokens)
    requires ix !in tokens
    ensures rest[ix := spans] + tokens == rest + tokens[ix := spans]
  {
  }

  lemma AddedNone(r: Result<Tokens, HighlightError>)
    ensures Added(map[], r) == r
  {
    if r.Success? {
      assert r.value + map[] == r.value;
    }
  }
}
