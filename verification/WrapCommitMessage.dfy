/** Wrapping a long commit summary into the body (app/src/lib/wrap-rich-text-commit-message.ts). */
module WrapCommitMessage {
  import opened Text
  import opened Tokenizing

  const MaxSummaryLength: int := 72

  const Ellipsis: Token := PlainText("\U{2026}")

  // ---------------------------------------------------------------- what wrapping returns

  /** How wide a token shows: an emoji counts as two characters. */
  function Width(token: Token): nat {
    if token.EmojiMatch? then 2 else |token.text|
  }

  datatype Wrapped = Wrapped(summary: seq<Token>, overflow: seq<Token>)

  /** A token that may be cut after `n` characters: text, or a link that shows no issue
      number and of which more than five characters stay. */
  predicate Splittable(token: Token, n: int) {
    token.PlainText? || (token.HyperlinkMatch? && !StartsWith(token.text, "#") && n > 5)
  }

  /** The two parts of a token cut after `n` characters. A cut link leads to its own text. */
  function FirstPart(token: Token, n: nat): Token
    requires n <= |token.text|
  {
    if token.HyperlinkMatch? then HyperlinkMatch(token.text[..n], token.text) else PlainText(token.text[..n])
  }

  function SecondPart(token: Token, n: nat): Token
    requires n <= |token.text|
  {
    if token.HyperlinkMatch? then HyperlinkMatch(token.text[n..], token.text) else PlainText(token.text[n..])
  }

  /** The tokens when `remainder` characters are left for the summary. */
  function Wrap(tokens: seq<Token>, remainder: int): Wrapped {
    if tokens == [] then Wrapped([], [])
    else
      var token := tokens[0];
      if remainder <= 0 then
        var rest := Wrap(tokens[1..], remainder);
        Wrapped(rest.summary, [token] + rest.overflow)
      else if remainder >= Width(token) then
        var rest := Wrap(tokens[1..], remainder - Width(token));
        Wrapped([token] + rest.summary, rest.overflow)
      else
        var rest := Wrap(tokens[1..], 0);
        if Splittable(token, remainder)
        then Wrapped([FirstPart(token, remainder)] + rest.summary, [SecondPart(token, remainder)] + rest.overflow)
        else Wrapped(rest.summary, [token] + rest.overflow)
  }

  /** `s.trimRight()` */
  function TrimRight(s: string): (r: string)
    ensures r <= s && (r == "" || !IsWhitespace(r[|r| - 1]))
    ensures forall i :: |r| <= i < |s| ==> IsWhitespace(s[i])
  {
    if s != "" && IsWhitespace(s[|s| - 1]) then TrimRight(s[..|s| - 1]) else s
  }

  /** Summary and body of a message, with an ellipsis on both sides of a wrap. */
  function WrapMessage(env: Context, summaryText: string, bodyText: string, maxSummaryLength: int): (seq<Token>, seq<Token>) {
    var w := Wrap(Tokens(env, TrimRight(summaryText)), maxSummaryLength);
    var body := Tokens(env, TrimRight(bodyText));
    if w.overflow == [] then (w.summary, body)
    else (w.summary + [Ellipsis],
          [Ellipsis] + w.overflow + if body == [] then [] else [PlainText("\n\n")] + body)
  }

  // ---------------------------------------------------------------- the cut

  /** With no room left everything overflows. */
  lemma {:induction false} NoRoom(tokens: seq<Token>, remainder: int)
    requires remainder <= 0
    ensures Wrap(tokens, remainder) == Wrapped([], tokens)
  {
    if tokens != [] {
      NoRoom(tokens[1..], remainder);
    }
  }

  function TotalWidth(tokens: seq<Token>): nat {
    if tokens == [] then 0
    else (if tokens[0].EmojiMatch? then 2 else |tokens[0].text|) + TotalWidth(tokens[1..])
  }

  /** The first `k` tokens are the summary. They fit, and the next one does not: there is
      no room at all, or it is too wide for the room and is an emoji, shows an issue number,
      or is another link of which no more than five characters would stay. */
  predicate CutBefore(tokens: seq<Token>, limit: int, k: nat, w: Wrapped) {
    && k <= |tokens| && w == Wrapped(tokens[..k], tokens[k..])
    && (k > 0 ==> TotalWidth(tokens[..k]) <= limit)
    && (k < |tokens| ==>
          var room := limit - TotalWidth(tokens[..k]);
          room <= 0 ||
          match tokens[k]
          case PlainText(_) => false
          case EmojiMatch(_, _, _, _) => room < 2
          case HyperlinkMatch(text, _) => room < |text| && ("#" <= text || room <= 5))
  }

  /** Token `k`, and no other, is cut, so that the summary is exactly `limit` wide. It is text,
      or a link that shows no issue number and of which more than five characters stay. Both
      parts of a link lead to the text it showed. */
  predicate CutInside(tokens: seq<Token>, limit: int, k: nat, w: Wrapped) {
    && k < |tokens|
    && var n := limit - TotalWidth(tokens[..k]);
       && 0 < n < |tokens[k].text|
       && match tokens[k]
          case PlainText(text) =>
            w == Wrapped(tokens[..k] + [PlainText(text[..n])], [PlainText(text[n..])] + tokens[k + 1..])
          case EmojiMatch(_, _, _, _) => false
          case HyperlinkMatch(text, _) =>
            && !("#" <= text) && n > 5
            && w == Wrapped(tokens[..k] + [HyperlinkMatch(text[..n], text)], [HyperlinkMatch(text[n..], text)] + tokens[k + 1..])
  }

  /** For every token list and limit, wrapping cuts the list at one place: between two
      tokens or inside a token that may be cut. */
  lemma {:induction false} WrapCutsOnce(tokens: seq<Token>, limit: int) returns (k: nat)
    ensures CutBefore(tokens, limit, k, Wrap(tokens, limit)) || CutInside(tokens, limit, k, Wrap(tokens, limit))
    decreases |tokens|
  {
    var w := Wrap(tokens, limit);
    if tokens == [] {
      k := 0;
    } else if limit <= 0 {
      NoRoom(tokens, limit);
      k := 0;
    } else {
      var token, rest := tokens[0], tokens[1..];
      if limit >= Width(token) {
        var j := WrapCutsOnce(rest, limit - Width(token));
        k := j + 1;
        PrefixWidth(tokens, k);
        assert tokens[..k] == [token] + rest[..j];
        assert tokens[k..] == rest[j..];
        if !CutBefore(rest, limit - Width(token), j, Wrap(rest, limit - Width(token))) {
          assert tokens[k + 1..] == rest[j + 1..];
          ConcatAssoc([token], rest[..j], [FirstPart(rest[j], limit - TotalWidth(tokens[..k]))]);
        }
      } else {
        NoRoom(rest, 0);
        k := 0;
        assert tokens[..0] == [];
        if Splittable(token, limit) {
          assert [FirstPart(token, limit)] + [] == [] + [FirstPart(token, limit)];
        } else {
          assert [token] + rest == tokens[0..];
        }
      }
    }
  }

  lemma PrefixWidth(tokens: seq<Token>, k: nat)
    requires 0 < k <= |tokens|
    ensures TotalWidth(tokens[..k]) == Width(tokens[0]) + TotalWidth(tokens[1..][..k - 1])
  {
    assert tokens[..k][1..] == tokens[1..][..k - 1];
  }

  // ---------------------------------------------------------------- conservation and the bound

  lemma {:induction false} ShownConcat(x: seq<Token>, y: seq<Token>)
    ensures Shown(x + y) == Shown(x) + Shown(y)
  {
    if x == [] {
      assert x + y == y;
    } else {
      assert (x + y)[1..] == x[1..] + y;
      ShownConcat(x[1..], y);
      ConcatAssoc(x[0].text, Shown(x[1..]), Shown(y));
    }
  }

  lemma {:induction false} WidthConcat(x: seq<Token>, y: seq<Token>)
    ensures TotalWidth(x + y) == TotalWidth(x) + TotalWidth(y)
  {
    if x == [] {
      assert x + y == y;
    } else {
      assert (x + y)[1..] == x[1..] + y;
      WidthConcat(x[1..], y);
    }
  }

  lemma OneToken(token: Token)
    ensures Shown([token]) == token.text && TotalWidth([token]) == Width(token)
  {
    assert [token][1..] == [];
    assert token.text + "" == token.text;
  }

  /** Summary followed by overflow shows what the tokens show, in order; and the summary
      is no wider than the limit. */
  lemma {:induction false} WrapConserves(tokens: seq<Token>, limit: int)
    ensures var w := Wrap(tokens, limit);
            && Shown(w.summary) + Shown(w.overflow) == Shown(tokens)
            && (w.summary != [] ==> TotalWidth(w.summary) <= limit)
  {
    hide Wrap, Shown, TotalWidth, Splittable;
    var w := Wrap(tokens, limit);
    var k := WrapCutsOnce(tokens, limit);
    assert tokens == tokens[..k] + tokens[k..];
    ShownConcat(tokens[..k], tokens[k..]);
    if !CutBefore(tokens, limit, k, w) {
      CutInsideConserves(tokens, limit, k, w);
    }
  }

  lemma CutInsideConserves(tokens: seq<Token>, limit: int, k: nat, w: Wrapped)
    requires CutInside(tokens, limit, k, w)
    ensures Shown(w.summary) + Shown(w.overflow) == Shown(tokens[..k]) + Shown(tokens[k..])
    ensures TotalWidth(w.summary) == limit
  {
    hide Wrap, Shown, TotalWidth, Splittable;
    var token, n := tokens[k], limit - TotalWidth(tokens[..k]);
    var first, second := FirstPart(token, n), SecondPart(token, n);
    ShownConcat(tokens[..k], [first]);
    WidthConcat(tokens[..k], [first]);
    ShownConcat([second], tokens[k + 1..]);
    ShownConcat([token], tokens[k + 1..]);
    assert [token] + tokens[k + 1..] == tokens[k..];
    OneToken(first);
    OneToken(second);
    OneToken(token);
    var a, b := Shown(tokens[..k]), Shown(tokens[k + 1..]);
    assert token.text == first.text + second.text;
    Regroup(a, first.text, second.text, b);
  }

  lemma Regroup(a: string, x: string, y: string, b: string)
    ensures a + x + (y + b) == a + (x + y + b)
  {
    ConcatAssoc(a + x, y, b);
    ConcatAssoc(a, x, y);
    ConcatAssoc(a, x + y, b);
  }

  /** Emoji and issue references are never cut: each ends up whole on one side. */
  lemma {:induction false} AtomsStayWhole(tokens: seq<Token>, limit: int)
    ensures var w := Wrap(tokens, limit);
            forall t :: t in tokens && (t.EmojiMatch? || (t.HyperlinkMatch? && StartsWith(t.text, "#"))) ==>
              t in w.summary || t in w.overflow
  {
    hide Wrap, TotalWidth;
    var k := WrapCutsOnce(tokens, limit);
    var w := Wrap(tokens, limit);
    forall t | t in tokens && (t.EmojiMatch? || (t.HyperlinkMatch? && StartsWith(t.text, "#")))
      ensures t in w.summary || t in w.overflow
    {
      var i :| 0 <= i < |tokens| && tokens[i] == t;
      if i < k {
        assert tokens[..k][i] == t;
      } else if CutBefore(tokens, limit, k, w) {
        assert tokens[k..][i - k] == t;
      } else {
        assert i > k;
        assert tokens[k + 1..][i - k - 1] == t;
      }
    }
  }

  predicate Visible(tokens: seq<Token>) {
    forall i :: 0 <= i < |tokens| ==> Width(tokens[i]) > 0
  }

  lemma TokensVisible(env: Context, text: string)
    ensures Visible(Tokens(env, text))
  {
    hide TokensFrom, LooksLikeIssue, LooksLikeMention, HyperlinkText;
    var tokens := Tokens(env, text);
    TextTokensApart(env, text);
    TokensGenuine(env, text, 0, "");
    forall i | 0 <= i < |tokens|
      ensures Width(tokens[i]) > 0
    {
      assert tokens[i] in tokens && Genuine(env, tokens[i]);
      if !tokens[i].PlainText? {
        GenuineVisible(env, tokens[i]);
      }
    }
  }

  lemma GenuineVisible(env: Context, token: Token)
    requires Genuine(env, token) && !token.PlainText?
    ensures Width(token) > 0
  {
  }

  /** Tokens of some width fit exactly when nothing overflows. */
  lemma {:induction false} NothingOverflowsIffFits(tokens: seq<Token>, limit: int)
    requires Visible(tokens)
    ensures Wrap(tokens, limit).overflow == [] <==> tokens == [] || TotalWidth(tokens) <= limit
  {
    hide Wrap, TotalWidth, StartsWith;
    var k := WrapCutsOnce(tokens, limit);
    assert tokens == tokens[..k] + tokens[k..];
    WidthConcat(tokens[..k], tokens[k..]);
    if k < |tokens| {
      assert tokens[k..] == [tokens[k]] + tokens[k + 1..];
      WidthConcat([tokens[k]], tokens[k + 1..]);
      OneToken(tokens[k]);
      assert Width(tokens[k]) > 0;
    } else {
      assert tokens[..k] == tokens && tokens[k..] == [];
      NoTokens();
      assert CutBefore(tokens, limit, k, Wrap(tokens, limit));
    }
  }

  lemma NoTokens()
    ensures TotalWidth([]) == 0
  {
  }

  /** A message is wrapped exactly when its summary does not fit. Then, and only then, the
      summary ends in an ellipsis, and the body starts with one, goes on with the overflow
      and then, after a blank line, with all tokens of the body text, if it has any. */
  lemma EllipsisIffTooWide(env: Context, summaryText: string, bodyText: string, maxSummaryLength: int)
    ensures var tokens := Tokens(env, TrimRight(summaryText)); var bodyTokens := Tokens(env, TrimRight(bodyText));
            var w := Wrap(tokens, maxSummaryLength);
            var (summary, body) := WrapMessage(env, summaryText, bodyText, maxSummaryLength);
            if tokens == [] || TotalWidth(tokens) <= maxSummaryLength then summary == tokens && body == bodyTokens
            else
              && w.overflow != [] && summary == w.summary + [PlainText("\U{2026}")]
              && body == [PlainText("\U{2026}")] + w.overflow
                         + if bodyTokens == [] then [] else [PlainText("\n\n")] + bodyTokens
  {
    hide Tokens, Wrap, TotalWidth;
    var tokens := Tokens(env, TrimRight(summaryText));
    TokensVisible(env, TrimRight(summaryText));
    NothingOverflowsIffFits(tokens, maxSummaryLength);
    var k := WrapCutsOnce(tokens, maxSummaryLength);
    assert k == |tokens| ==> tokens[..k] == tokens;
  }

  /** Nothing of a message is lost: without its ellipsis the summary, and then without its
      ellipsis and blank line the body, show what the summary text's tokens and then the body
      text's tokens show. */
  lemma MessageConserved(env: Context, summaryText: string, bodyText: string, maxSummaryLength: int)
    ensures var tokens := Tokens(env, TrimRight(summaryText)); var bodyTokens := Tokens(env, TrimRight(bodyText));
            var (summary, body) := WrapMessage(env, summaryText, bodyText, maxSummaryLength);
            var wrapped := tokens != [] && TotalWidth(tokens) > maxSummaryLength;
            var blank := if wrapped && bodyTokens != [] then "\n\n" else "";
            if !wrapped then Shown(summary) == Shown(tokens) && Shown(body) == Shown(bodyTokens)
            else exists kept, overflow ::
                   && Shown(summary) == kept + "\U{2026}"
                   && Shown(body) == "\U{2026}" + (overflow + (blank + Shown(bodyTokens)))
                   && kept + overflow == Shown(tokens)
  {
    hide Tokens, Wrap, TotalWidth, WrapMessage, Shown;
    var tokens, bodyTokens := Tokens(env, TrimRight(summaryText)), Tokens(env, TrimRight(bodyText));
    var w := Wrap(tokens, maxSummaryLength);
    EllipsisIffTooWide(env, summaryText, bodyText, maxSummaryLength);
    if tokens != [] && TotalWidth(tokens) > maxSummaryLength {
      WrapConserves(tokens, maxSummaryLength);
      var dots := PlainText("\U{2026}");
      OneToken(dots);
      ShownConcat(w.summary, [dots]);
      var tail := if bodyTokens == [] then [] else [PlainText("\n\n")] + bodyTokens;
      TailShown(bodyTokens);
      ShownConcat([dots] + w.overflow, tail);
      ShownConcat([dots], w.overflow);
      ConcatAssoc(dots.text, Shown(w.overflow), Shown(tail));
    }
  }

  lemma TailShown(tokens: seq<Token>)
    ensures Shown(if tokens == [] then [] else [PlainText("\n\n")] + tokens) ==
            (if tokens == [] then "" else "\n\n") + Shown(tokens)
  {
    if tokens != [] {
      OneToken(PlainText("\n\n"));
      ShownConcat([PlainText("\n\n")], tokens);
    }
  }

  // ---------------------------------------------------------------- the method

  method WrapRichTextCommitMessage(summaryText: string, bodyText: string, tokenizer: Tokenizer,
                                   maxSummaryLength: int := MaxSummaryLength)
    returns (summary: seq<Token>, body: seq<Token>)
    modifies tokenizer
    ensures (summary, body) == WrapMessage(tokenizer.env, summaryText, bodyText, maxSummaryLength)
  {
    hide Tokens;
    var tokens := tokenizer.Tokenize(TrimRight(summaryText));
    summary := [];
    var overflow := [];
    var remainder := maxSummaryLength;
    var i := 0;
    assert tokens[0..] == tokens;
    JoinedNone(Wrap(tokens, maxSummaryLength));
    while i < |tokens|
      invariant 0 <= i <= |tokens|
      invariant Joined(summary, overflow, Wrap(tokens[i..], remainder)) == Wrap(tokens, maxSummaryLength)
    {
      var token := tokens[i];
      assert tokens[i..][1..] == tokens[i + 1..];
      var charCount := Width(token);
      if remainder <= 0 {
        JoinedStep(summary, overflow, [], [token], Wrap(tokens[i + 1..], remainder));
        overflow := overflow + [token];
      } else if remainder >= charCount {
        JoinedStep(summary, overflow, [token], [], Wrap(tokens[i + 1..], remainder - charCount));
        summary := summary + [token];
        remainder := remainder - charCount;
      } else {
        var rest := Wrap(tokens[i + 1..], 0);
        if token.PlainText? {
          JoinedStep(summary, overflow, [FirstPart(token, remainder)], [SecondPart(token, remainder)], rest);
          summary := summary + [PlainText(token.text[..remainder])];
          overflow := overflow + [PlainText(token.text[remainder..])];
        } else if token.EmojiMatch? {
          JoinedStep(summary, overflow, [], [token], rest);
          overflow := overflow + [token];
        } else {
          if !StartsWith(token.text, "#") && remainder > 5 {
            JoinedStep(summary, overflow, [FirstPart(token, remainder)], [SecondPart(token, remainder)], rest);
            summary := summary + [HyperlinkMatch(token.text[..remainder], token.text)];
            overflow := overflow + [HyperlinkMatch(token.text[remainder..], token.text)];
          } else {
            JoinedStep(summary, overflow, [], [token], rest);
            overflow := overflow + [token];
          }
        }
        remainder := 0;
      }
      i := i + 1;
    }
    assert tokens[i..] == [];
    assert Wrap(tokens, maxSummaryLength) == Wrapped(summary, overflow) by {
      assert summary + [] == summary && overflow + [] == overflow;
    }

    body := tokenizer.Tokenize(TrimRight(bodyText));
    if |overflow| > 0 {
      summary := summary + [Ellipsis];
      if |body| > 0 {
        body := [Ellipsis] + overflow + ([PlainText("\n\n")] + body);
      } else {
        body := [Ellipsis] + overflow + [];
      }
    }
  }

  ghost function Joined(summary: seq<Token>, overflow: seq<Token>, w: Wrapped): Wrapped {
    Wrapped(summary + w.summary, overflow + w.overflow)
  }

  lemma JoinedNone(w: Wrapped)
    ensures Joined([], [], w) == w
  {
  }

  lemma JoinedStep(summary: seq<Token>, overflow: seq<Token>, s: seq<Token>, o: seq<Token>, w: Wrapped)
    ensures Joined(summary, overflow, Joined(s, o, w)) == Joined(summary + s, overflow + o, w)
    ensures s == [] ==> Joined(s, o, w) == Wrapped(w.summary, o + w.overflow) && summary + s == summary
    ensures o == [] ==> Joined(s, o, w) == Wrapped(s + w.summary, w.overflow) && overflow + o == overflow
  {
    ConcatAssoc(summary, s, w.summary);
    ConcatAssoc(overflow, o, w.overflow);
  }
}
