/** What the highlighter answers, in terms of the calls it makes of the mode: which tokens it
    records, how it threads the state through calls and lines, and when it gives up. */
module HighlighterTraces {
  import opened Text
  import opened Highlighter

  // ---------------------------------------------------------------- calls of a mode

  /** A call of the mode's `token`: the start of the token, the stream's position, the state. */
  datatype Call<S> = Call(start: nat, from: nat, state: S)

  function Made<S>(mode: Mode<S>, lines: seq<string>, ix: nat, c: Call<S>): Step<S> {
    mode.token(Cursor(lines, ix, c.start, c.from), c.state)
  }

  predicate Advances<S>(mode: Mode<S>, lines: seq<string>, ix: nat, c: Call<S>) {
    Made(mode, lines, ix, c).pos > c.start
  }

  /** The call after this one: of the next token if this one advanced, of the same otherwise. */
  function Next<S>(mode: Mode<S>, lines: seq<string>, ix: nat, c: Call<S>): Call<S> {
    var made := Made(mode, lines, ix, c);
    Call(if made.pos > c.start then made.pos else c.start, made.pos, if mode.stateful then made.state else c.state)
  }

  /** A call that leaves a token: it advances, and the mode gives it a style. */
  predicate Leaves<S>(mode: Mode<S>, lines: seq<string>, ix: nat, c: Call<S>) {
    Advances(mode, lines, ix, c) && Made(mode, lines, ix, c).style != ""
  }

  /** The token a call leaves: its style, after the name of the mode that was inside when it
      was made if these are asked for and it has one. */
  function Left<S>(mode: Mode<S>, lines: seq<string>, ix: nat, c: Call<S>, addModeClass: bool): Span
    requires Leaves(mode, lines, ix, c)
  {
    var made := Made(mode, lines, ix, c);
    Span(made.pos - c.start,
         if addModeClass && mode.innerName(c.state) != "" then "m-" + mode.innerName(c.state) + " " + made.style
         else made.style)
  }

  /** Each call follows from the one before it. The last is where the calls lead, and is not made. */
  ghost predicate IsTrace<S(!new)>(mode: Mode<S>, lines: seq<string>, ix: nat, calls: seq<Call<S>>)
    requires ix < |lines|
  {
    && calls != []
    && forall i :: 0 <= i < |calls| - 1 ==>
         calls[i].start < |lines[ix]| && calls[i + 1] == Next(mode, lines, ix, calls[i])
  }

  ghost predicate AdvancesWithin<S(!new)>(mode: Mode<S>, lines: seq<string>, ix: nat, calls: seq<Call<S>>, i: nat)
    requires i + 10 < |calls|
  {
    exists j :: i <= j < i + 10 && Advances(mode, lines, ix, calls[j])
  }

  /** No ten calls in a row fail to advance. */
  ghost predicate KeepsAdvancing<S(!new)>(mode: Mode<S>, lines: seq<string>, ix: nat, calls: seq<Call<S>>) {
    forall i: nat :: i + 10 < |calls| ==> AdvancesWithin(mode, lines, ix, calls, i)
  }

  /** The spans are exactly those of the calls that leave a token. */
  ghost predicate Records<S(!new)>(mode: Mode<S>, lines: seq<string>, ix: nat, calls: seq<Call<S>>, spans: Spans, addModeClass: bool) {
    && (forall i :: 0 <= i < |calls| - 1 && Leaves(mode, lines, ix, calls[i]) ==>
          calls[i].start in spans && spans[calls[i].start] == Left(mode, lines, ix, calls[i], addModeClass))
    && forall k :: k in spans ==>
         exists i :: 0 <= i < |calls| - 1 && calls[i].start == k && Leaves(mode, lines, ix, calls[i])
  }

  // ---------------------------------------------------------------- one token

  lemma TraceAfter<S(!new)>(mode: Mode<S>, lines: seq<string>, ix: nat, first: Call<S>, rest: seq<Call<S>>)
    requires ix < |lines| && first.start < |lines[ix]|
    requires IsTrace(mode, lines, ix, rest) && rest[0] == Next(mode, lines, ix, first)
    ensures IsTrace(mode, lines, ix, [first] + rest)
  {
    hide Next;
    var all := [first] + rest;
    forall i | 0 <= i < |all| - 1
      ensures all[i].start < |lines[ix]| && all[i + 1] == Next(mode, lines, ix, all[i])
    {
      if i > 0 {
        assert all[i] == rest[i - 1] && all[i + 1] == rest[i];
      }
    }
  }

  lemma OneCall<S(!new)>(mode: Mode<S>, lines: seq<string>, ix: nat, c: Call<S>)
    requires ix < |lines|
    ensures IsTrace(mode, lines, ix, [c])
  {
  }

  lemma StepIsLeft<S(!new)>(mode: Mode<S>, c: Cursor, s: S, addModeClass: bool, left: nat)
    requires left > 0 && c.line < |c.lines| && mode.token(c, s).pos > c.start
    ensures var here := Call(c.start, c.pos, s);
            match Attempts(mode, c, s, addModeClass, left)
            case Success(t) =>
              && Next(mode, c.lines, c.line, here) == Call(t.pos, t.pos, t.state)
              && (t.style != "" <==> Leaves(mode, c.lines, c.line, here))
              && (t.style != "" ==> Left(mode, c.lines, c.line, here, addModeClass) == Span(t.pos - c.start, t.style))
            case Failure(_) => false
  {
  }

  /** The attempts at a token are calls of which only the last may advance. */
  lemma {:induction false} AttemptsAreCalls<S(!new)>(mode: Mode<S>, c: Cursor, s: S, addModeClass: bool, left: nat)
    returns (calls: seq<Call<S>>)
    requires c.line < |c.lines| && c.start < |c.lines[c.line]|
    ensures IsTrace(mode, c.lines, c.line, calls) && calls[0] == Call(c.start, c.pos, s)
    ensures forall i :: 0 <= i < |calls| - 2 ==> !Advances(mode, c.lines, c.line, calls[i])
    ensures forall i :: 0 <= i < |calls| - 1 ==> calls[i].start == c.start
    ensures match Attempts(mode, c, s, addModeClass, left)
            case Success(t) =>
              && 2 <= |calls| <= left + 1
              && var last := calls[|calls| - 2];
                 && Advances(mode, c.lines, c.line, last)
                 && calls[|calls| - 1] == Call(t.pos, t.pos, t.state)
                 && (t.style != "" <==> Leaves(mode, c.lines, c.line, last))
                 && (t.style != "" ==> Left(mode, c.lines, c.line, last, addModeClass) == Span(t.pos - c.start, t.style))
            case Failure(_) =>
              |calls| == left + 1 && forall i :: 0 <= i < |calls| - 1 ==> !Advances(mode, c.lines, c.line, calls[i])
    decreases left
  {
    hide Left, IsTrace;
    var here := Call(c.start, c.pos, s);
    OneCall(mode, c.lines, c.line, here);
    if left == 0 {
      calls := [here];
    } else {
      var t := mode.token(c, s);
      assert t == Made(mode, c.lines, c.line, here);
      if t.pos > c.start {
        StepIsLeft(mode, c, s, addModeClass, left);
        calls := [here, Next(mode, c.lines, c.line, here)];
        OneCall(mode, c.lines, c.line, calls[1]);
        TraceAfter(mode, c.lines, c.line, here, [calls[1]]);
        assert calls == [here] + [calls[1]];
      } else {
        var rest := AttemptsAreCalls(mode, c.(pos := t.pos), Keep(mode, s, t.state), addModeClass, left - 1);
        calls := [here] + rest;
        TraceAfter(mode, c.lines, c.line, here, rest);
        assert forall i :: 0 < i < |calls| ==> calls[i] == rest[i - 1];
      }
    }
  }

  // ---------------------------------------------------------------- one line

  /** The calls lead from the start to the end of the line, and the spans are what they leave. */
  ghost predicate LineTrace<S(!new)>(mode: Mode<S>, lines: seq<string>, ix: nat, start: nat, before: S, after: S, spans: Spans,
                                     addModeClass: bool, calls: seq<Call<S>>)
    requires ix < |lines|
  {
    && IsTrace(mode, lines, ix, calls) && calls[0] == Call(start, start, before)
    && calls[|calls| - 1].start >= |lines[ix]| && calls[|calls| - 1].state == after
    && KeepsAdvancing(mode, lines, ix, calls) && Records(mode, lines, ix, calls, spans, addModeClass)
  }

  /** The spans of a line, and the state after it, are what some calls from its start to its
      end record and lead to. */
  ghost predicate LineDescribed<S(!new)>(mode: Mode<S>, lines: seq<string>, ix: nat, start: nat, before: S, after: S, spans: Spans,
                                         addModeClass: bool)
    requires ix < |lines|
  {
    exists calls: seq<Call<S>> :: LineTrace(mode, lines, ix, start, before, after, spans, addModeClass, calls)
  }

  ghost predicate StallTrace<S(!new)>(mode: Mode<S>, lines: seq<string>, ix: nat, start: nat, before: S, calls: seq<Call<S>>)
    requires ix < |lines|
  {
    && IsTrace(mode, lines, ix, calls) && calls[0] == Call(start, start, before)
    && |calls| > 10 && forall i :: |calls| - 11 <= i < |calls| - 1 ==> !Advances(mode, lines, ix, calls[i])
  }

  /** The calls of a line come to ten in a row that do not advance. */
  ghost predicate LineStalls<S(!new)>(mode: Mode<S>, lines: seq<string>, ix: nat, start: nat, before: S)
    requires ix < |lines|
  {
    exists calls: seq<Call<S>> :: StallTrace(mode, lines, ix, start, before, calls)
  }

  lemma TraceJoined<S(!new)>(mode: Mode<S>, lines: seq<string>, ix: nat, first: seq<Call<S>>, rest: seq<Call<S>>)
    requires ix < |lines| && IsTrace(mode, lines, ix, first) && IsTrace(mode, lines, ix, rest)
    requires first[|first| - 1] == rest[0]
    ensures rest != [] && IsTrace(mode, lines, ix, first[..|first| - 1] + rest)
    ensures (first[..|first| - 1] + rest)[0] == first[0]
  {
    hide Next;
    var all, n := first[..|first| - 1] + rest, |first| - 1;
    forall i | 0 <= i < |all| - 1
      ensures all[i].start < |lines[ix]| && all[i + 1] == Next(mode, lines, ix, all[i])
    {
      if i < n {
        assert all[i] == first[i] && all[i + 1] == first[i + 1];
      } else {
        assert all[i] == rest[i - n] && all[i + 1] == rest[i - n + 1];
      }
    }
  }

  lemma AdvancingJoined<S(!new)>(mode: Mode<S>, lines: seq<string>, ix: nat, first: seq<Call<S>>, rest: seq<Call<S>>)
    requires 2 <= |first| <= 11 && rest != []
    requires Advances(mode, lines, ix, first[|first| - 2]) && KeepsAdvancing(mode, lines, ix, rest)
    ensures KeepsAdvancing(mode, lines, ix, first[..|first| - 1] + rest)
  {
    hide Advances;
    var all, n := first[..|first| - 1] + rest, |first| - 1;
    forall i: nat | i + 10 < |all|
      ensures AdvancesWithin(mode, lines, ix, all, i)
    {
      if i < n {
        assert all[n - 1] == first[n - 1];
      } else {
        assert AdvancesWithin(mode, lines, ix, rest, i - n);
        var j :| i - n <= j < i - n + 10 && Advances(mode, lines, ix, rest[j]);
        assert all[j + n] == rest[j];
      }
    }
  }

  /** The spans of a token's attempts and of the rest of the line are those of the line. */
  lemma RecordsJoined<S(!new)>(mode: Mode<S>, lines: seq<string>, ix: nat, first: seq<Call<S>>, rest: seq<Call<S>>, spans: Spans,
                               start: nat, style: string, addModeClass: bool)
    requires |first| >= 2 && rest != [] && Records(mode, lines, ix, rest, spans, addModeClass)
    requires forall i :: 0 <= i < |first| - 2 ==> !Advances(mode, lines, ix, first[i])
    requires first[|first| - 2].start == start && forall k :: k in spans ==> start < k
    requires style != "" <==> Leaves(mode, lines, ix, first[|first| - 2])
    requires style != "" ==> Left(mode, lines, ix, first[|first| - 2], addModeClass).token == style
    ensures var all := first[..|first| - 1] + rest; var last := first[|first| - 2];
            Records(mode, lines, ix, all,
                    if style != "" then spans[start := Left(mode, lines, ix, last, addModeClass)] else spans, addModeClass)
  {
    hide Left;
    var all, last, n := first[..|first| - 1] + rest, first[|first| - 2], |first| - 1;
    var more := if style != "" then spans[start := Left(mode, lines, ix, last, addModeClass)] else spans;
    assert forall i :: 0 <= i < n ==> all[i] == first[i];
    assert forall i :: 0 <= i < |rest| ==> all[i + n] == rest[i];
    forall i | 0 <= i < |all| - 1 && Leaves(mode, lines, ix, all[i])
      ensures all[i].start in more && more[all[i].start] == Left(mode, lines, ix, all[i], addModeClass)
    {
      if i >= n {
        assert all[i] == rest[i - n];
      }
    }
    forall k | k in more
      ensures exists i :: 0 <= i < |all| - 1 && all[i].start == k && Leaves(mode, lines, ix, all[i])
    {
      if k == start && style != "" {
        assert all[n - 1] == last;
      } else {
        var i :| 0 <= i < |rest| - 1 && rest[i].start == k && Leaves(mode, lines, ix, rest[i]);
        assert all[i + n] == rest[i];
      }
    }
  }

  /** Tokenizing a line records what its calls leave; it fails when they come to ten in a row
      that do not advance. */
  lemma {:induction false} LineIsDescribed<S(!new)>(mode: Mode<S>, lines: seq<string>, ix: nat, start: nat, s: S, addModeClass: bool)
    requires ix < |lines|
    ensures match LineTokens(mode, lines, ix, start, s, addModeClass)
            case Success((spans, after)) => LineDescribed(mode, lines, ix, start, s, after, spans, addModeClass)
            case Failure(_) => LineStalls(mode, lines, ix, start, s)
    decreases |lines[ix]| - start
  {
    hide Attempts, IsTrace, KeepsAdvancing, Records, Advances, Leaves, Left, LineStalls;
    LineStep(mode, lines, ix, start, s, addModeClass);
    if start >= |lines[ix]| {
      EndOfLine(mode, lines, ix, start, s, addModeClass);
    } else {
      var t := Attempts(mode, Cursor(lines, ix, start, start), s, addModeClass, 10);
      var first := AttemptsAreCalls(mode, Cursor(lines, ix, start, start), s, addModeClass, 10);
      if t.Failure? {
        StallsAtOnce(mode, lines, ix, start, s, first);
      } else {
        var last := first[|first| - 2];
        var next := LineTokens(mode, lines, ix, t.value.pos, t.value.state, addModeClass);
        LineIsDescribed(mode, lines, ix, t.value.pos, t.value.state, addModeClass);
        if next.Failure? {
          StallsLater(mode, lines, ix, start, s, first, t.value.pos, t.value.state);
        } else {
          var spans, after := next.value.0, next.value.1;
          var rest: seq<Call<S>> :|
            LineTrace(mode, lines, ix, t.value.pos, t.value.state, after, spans, addModeClass, rest);
          LineSpansOrdered(mode, lines, ix, t.value.pos, t.value.state, addModeClass);
          TraceJoined(mode, lines, ix, first, rest);
          AdvancingJoined(mode, lines, ix, first, rest);
          RecordsJoined(mode, lines, ix, first, rest, spans, start, t.value.style, addModeClass);
          var all := first[..|first| - 1] + rest;
          assert all[|all| - 1] == rest[|rest| - 1];
          assert LineTrace(mode, lines, ix, start, s, after, LineTokens(mode, lines, ix, start, s, addModeClass).value.0, addModeClass, all);
        }
      }
    }
  }

  lemma EndOfLine<S(!new)>(mode: Mode<S>, lines: seq<string>, ix: nat, start: nat, s: S, addModeClass: bool)
    requires ix < |lines| && start >= |lines[ix]|
    ensures LineDescribed(mode, lines, ix, start, s, s, map[], addModeClass)
  {
    var calls := [Call(start, start, s)];
    assert IsTrace(mode, lines, ix, calls) && KeepsAdvancing(mode, lines, ix, calls);
    assert LineTrace(mode, lines, ix, start, s, s, map[], addModeClass, calls);
  }

  lemma StallsAtOnce<S(!new)>(mode: Mode<S>, lines: seq<string>, ix: nat, start: nat, s: S, calls: seq<Call<S>>)
    requires ix < |lines| && IsTrace(mode, lines, ix, calls) && |calls| == 11 && calls[0] == Call(start, start, s)
    requires forall i :: 0 <= i < |calls| - 1 ==> !Advances(mode, lines, ix, calls[i])
    ensures LineStalls(mode, lines, ix, start, s)
  {
    hide IsTrace, Advances;
    assert StallTrace(mode, lines, ix, start, s, calls);
  }

  lemma StallsLater<S(!new)>(mode: Mode<S>, lines: seq<string>, ix: nat, start: nat, s: S, first: seq<Call<S>>, pos: nat, state: S)
    requires ix < |lines| && IsTrace(mode, lines, ix, first) && first[0] == Call(start, start, s)
    requires first[|first| - 1] == Call(pos, pos, state) && LineStalls(mode, lines, ix, pos, state)
    ensures LineStalls(mode, lines, ix, start, s)
  {
    hide Advances, Next;
    var rest: seq<Call<S>> :| StallTrace(mode, lines, ix, pos, state, rest);
    TraceJoined(mode, lines, ix, first, rest);
    var all, n := first[..|first| - 1] + rest, |first| - 1;
    assert forall i :: n <= i < |all| ==> all[i] == rest[i - n];
    assert StallTrace(mode, lines, ix, start, s, all);
  }

  // ---------------------------------------------------------------- all lines

  /** The lines a run tokenizes: all, or those up to the last requested one, of which a mode
      without state needs only the requested ones. */
  ghost predicate Visited<S(!new)>(mode: Mode<S>, requested: seq<int>, ix: nat) {
    requested == [] || ((exists m :: m in requested && ix <= m) && (mode.stateful || ix in requested))
  }

  /** What a run makes of a line, with the state before and after it. */
  ghost predicate LineAnswered<S(!new)>(mode: Mode<S>, lines: seq<string>, requested: seq<int>, addModeClass: bool, ix: nat,
                                        before: S, after: S, tokens: Tokens)
    requires ix < |lines|
  {
    if !Visited(mode, requested, ix) then after == before && ix !in tokens
    else if lines[ix] == "" then after == (if mode.stateful then mode.blankLine(before) else before) && ix !in tokens
    else
      exists spans: Spans ::
        && LineDescribed(mode, lines, ix, 0, before, after, spans, addModeClass)
        && if (requested == [] || ix in requested) && spans != map[] then ix in tokens && tokens[ix] == spans else ix !in tokens
  }

  /** One line of a run. */
  lemma RemainingStep<S(!new)>(mode: Mode<S>, lines: seq<string>, requested: seq<int>, ix: nat, s: S, addModeClass: bool)
    requires ix < |lines|
    ensures var r := Remaining(mode, lines, requested, ix, s, addModeClass);
            var wanted := requested == [] || ix in requested;
            if !Visited(mode, requested, ix) then r == Remaining(mode, lines, requested, ix + 1, s, addModeClass)
            else
              match VisitLine(mode, lines, ix, s, addModeClass)
              case Failure(e) => r == Failure(e)
              case Success((spans, after)) =>
                match Remaining(mode, lines, requested, ix + 1, after, addModeClass)
                case Failure(e) => r == Failure(e)
                case Success(rest) => r == Success(if spans == map[] || !wanted then rest else rest[ix := spans])
  {
    hide VisitLine;
  }

  /** What a run makes of the lines from `ix` on, with the states between them. */
  ghost predicate LinesAnswered<S(!new)>(mode: Mode<S>, lines: seq<string>, requested: seq<int>, addModeClass: bool, ix: nat,
                                         states: seq<S>, tokens: Tokens)
    requires states != [] && ix + |states| <= |lines| + 1
    decreases |states|
  {
    |states| == 1 ||
    (&& LineAnswered(mode, lines, requested, addModeClass, ix, states[0], states[1], tokens)
     && LinesAnswered(mode, lines, requested, addModeClass, ix + 1, states[1..], tokens))
  }

  lemma {:induction false} LinesAnsweredAlike<S(!new)>(mode: Mode<S>, lines: seq<string>, requested: seq<int>, addModeClass: bool,
                                                       ix: nat, states: seq<S>, tokens: Tokens, other: Tokens)
    requires states != [] && ix + |states| <= |lines| + 1
    requires LinesAnswered(mode, lines, requested, addModeClass, ix, states, tokens)
    requires forall k :: k >= ix ==> (k in tokens <==> k in other) && (k in tokens ==> tokens[k] == other[k])
    ensures LinesAnswered(mode, lines, requested, addModeClass, ix, states, other)
    decreases |states|
  {
    hide LineAnswered;
    if |states| > 1 {
      AnsweredAlike(mode, lines, requested, addModeClass, ix, states[0], states[1], tokens, other);
      LinesAnsweredAlike(mode, lines, requested, addModeClass, ix + 1, states[1..], tokens, other);
    }
  }

  lemma OneMoreAnswered<S(!new)>(mode: Mode<S>, lines: seq<string>, requested: seq<int>, addModeClass: bool, ix: nat, s: S,
                                 states: seq<S>, tokens: Tokens, more: Tokens)
    requires states != [] && ix + 1 + |states| <= |lines| + 1
    requires LinesAnswered(mode, lines, requested, addModeClass, ix + 1, states, tokens)
    requires LineAnswered(mode, lines, requested, addModeClass, ix, s, states[0], more)
    requires forall k :: k > ix ==> (k in tokens <==> k in more) && (k in tokens ==> tokens[k] == more[k])
    ensures LinesAnswered(mode, lines, requested, addModeClass, ix, [s] + states, more)
  {
    hide LineAnswered;
    LinesAnsweredAlike(mode, lines, requested, addModeClass, ix + 1, states, tokens, more);
    assert ([s] + states)[1..] == states;
  }

  /** For every mode and request: the answer is, line by line, what the mode's calls leave,
      with the state handed on from call to call and from line to line. A run fails when it
      tokenizes a line whose calls come to ten in a row that do not advance. */
  lemma {:induction false} RunIsDescribed<S(!new)>(mode: Mode<S>, lines: seq<string>, requested: seq<int>, ix: nat, s: S,
                                                   addModeClass: bool) returns (states: seq<S>, tokens: Tokens)
    requires ix <= |lines|
    ensures states != [] && states[0] == s && ix + |states| <= |lines| + 1
    ensures LinesAnswered(mode, lines, requested, addModeClass, ix, states, tokens)
    ensures forall k :: k in tokens ==> ix <= k < |lines|
    ensures match Remaining(mode, lines, requested, ix, s, addModeClass)
            case Success(answer) => answer == tokens && ix + |states| == |lines| + 1
            case Failure(_) => Stopped(mode, lines, requested, ix + |states| - 1, states[|states| - 1])
    decreases |lines| - ix
  {
    hide VisitLine, Stopped, Visited, LineAnswered, LinesAnswered;
    if ix == |lines| {
      states, tokens := [s], map[];
      NoLinesLeft(mode, lines, requested, s, addModeClass);
    } else {
      RemainingStep(mode, lines, requested, ix, s, addModeClass);
      var v := VisitLine(mode, lines, ix, s, addModeClass);
      if Visited(mode, requested, ix) && v.Failure? {
        states, tokens := [s], map[];
        StopsHere(mode, lines, requested, ix, s, addModeClass);
      } else {
        var after := if Visited(mode, requested, ix) then v.value.1 else s;
        var rest, more := RunIsDescribed(mode, lines, requested, ix + 1, after, addModeClass);
        tokens := if Visited(mode, requested, ix) && v.value.0 != map[] && (requested == [] || ix in requested)
                  then more[ix := v.value.0] else more;
        states := [s] + rest;
        OneAnswered(mode, lines, requested, ix, s, addModeClass, tokens);
        OneMoreAnswered(mode, lines, requested, addModeClass, ix, s, rest, more, tokens);
      }
    }
  }

  /** A run cannot go on: it tokenizes a line that stalls. */
  ghost predicate Stopped<S(!new)>(mode: Mode<S>, lines: seq<string>, requested: seq<int>, ix: nat, s: S) {
    ix < |lines| && Visited(mode, requested, ix) && LineStalls(mode, lines, ix, 0, s)
  }

  lemma StopsHere<S(!new)>(mode: Mode<S>, lines: seq<string>, requested: seq<int>, ix: nat, s: S, addModeClass: bool)
    requires ix < |lines| && Visited(mode, requested, ix) && VisitLine(mode, lines, ix, s, addModeClass).Failure?
    ensures Stopped(mode, lines, requested, ix, s)
    ensures forall tokens: Tokens :: LinesAnswered(mode, lines, requested, addModeClass, ix, [s], tokens)
  {
    hide VisitLine, LineStalls, Visited;
    VisitIsDescribed(mode, lines, ix, s, addModeClass);
  }

  lemma OneAnswered<S(!new)>(mode: Mode<S>, lines: seq<string>, requested: seq<int>, ix: nat, s: S, addModeClass: bool,
                             tokens: Tokens)
    requires ix < |lines| && (Visited(mode, requested, ix) ==> VisitLine(mode, lines, ix, s, addModeClass).Success?)
    requires var spans := if Visited(mode, requested, ix) then VisitLine(mode, lines, ix, s, addModeClass).value.0 else map[];
             if (requested == [] || ix in requested) && spans != map[] then ix in tokens && tokens[ix] == spans else ix !in tokens
    ensures LineAnswered(mode, lines, requested, addModeClass, ix, s,
                         if Visited(mode, requested, ix) then VisitLine(mode, lines, ix, s, addModeClass).value.1 else s, tokens)
  {
    hide LineDescribed, Visited, VisitLine;
    VisitIsDescribed(mode, lines, ix, s, addModeClass);
  }

  lemma NoLinesLeft<S(!new)>(mode: Mode<S>, lines: seq<string>, requested: seq<int>, s: S, addModeClass: bool)
    ensures Remaining(mode, lines, requested, |lines|, s, addModeClass) == Success(map[])
    ensures LinesAnswered(mode, lines, requested, addModeClass, |lines|, [s], map[])
  {
  }

  /** What a line's answer says of the tokens, it says of all tokens that agree on the line. */
  lemma AnsweredAlike<S(!new)>(mode: Mode<S>, lines: seq<string>, requested: seq<int>, addModeClass: bool, ix: nat, before: S,
                               after: S, tokens: Tokens, other: Tokens)
    requires ix < |lines| && LineAnswered(mode, lines, requested, addModeClass, ix, before, after, tokens)
    requires (ix in tokens <==> ix in other) && (ix in tokens ==> tokens[ix] == other[ix])
    ensures LineAnswered(mode, lines, requested, addModeClass, ix, before, after, other)
  {
    hide LineDescribed, Visited;
  }

  lemma VisitIsDescribed<S(!new)>(mode: Mode<S>, lines: seq<string>, ix: nat, s: S, addModeClass: bool)
    requires ix < |lines|
    ensures match VisitLine(mode, lines, ix, s, addModeClass)
            case Failure(_) => LineStalls(mode, lines, ix, 0, s)
            case Success((spans, after)) =>
              if lines[ix] == "" then spans == map[] && after == if mode.stateful then mode.blankLine(s) else s
              else LineDescribed(mode, lines, ix, 0, s, after, spans, addModeClass)
  {
    hide LineDescribed, LineStalls;
    LineIsDescribed(mode, lines, ix, 0, s, addModeClass);
  }

  lemma {:induction false} EachAnswered<S(!new)>(mode: Mode<S>, lines: seq<string>, requested: seq<int>, addModeClass: bool,
                                                 ix: nat, states: seq<S>, tokens: Tokens, i: nat)
    requires states != [] && ix + |states| <= |lines| + 1 && i < |states| - 1
    requires LinesAnswered(mode, lines, requested, addModeClass, ix, states, tokens)
    ensures LineAnswered(mode, lines, requested, addModeClass, ix + i, states[i], states[i + 1], tokens)
    decreases i
  {
    hide LineAnswered;
    if i > 0 {
      EachAnswered(mode, lines, requested, addModeClass, ix + 1, states[1..], tokens, i - 1);
    }
  }

  /** What the highlighter answers to a request for some lines, or for all: the tokens of
      every line, with the states between the lines. A run that fails has gone through lines
      in this way up to one at which it cannot go on. */
  lemma AnswerIsDescribed<S(!new)>(mode: Mode<S>, lines: seq<string>, requested: seq<int>, addModeClass: bool)
    returns (states: seq<S>, tokens: Tokens)
    ensures states != [] && states[0] == mode.start && |states| <= |lines| + 1
    ensures forall i :: 0 <= i < |states| - 1 ==>
              LineAnswered(mode, lines, requested, addModeClass, i, states[i], states[i + 1], tokens)
    ensures forall k :: k in tokens ==> k < |lines|
    ensures match RunFor(mode, lines, requested, addModeClass)
            case Success(answer) => answer == tokens && |states| == |lines| + 1
            case Failure(_) => Stopped(mode, lines, requested, |states| - 1, states[|states| - 1])
  {
    hide Stopped, LineAnswered, LinesAnswered, Remaining;
    states, tokens := RunIsDescribed(mode, lines, requested, 0, mode.start, addModeClass);
    forall i | 0 <= i < |states| - 1
      ensures LineAnswered(mode, lines, requested, addModeClass, i, states[i], states[i + 1], tokens)
    {
      EachAnswered(mode, lines, requested, addModeClass, 0, states, tokens, i);
    }
  }
}
