/** What the tokens of a text are, described without the scanners: where a word stands for
    something it is that token, and text is where nothing is meant
    (app/src/lib/text-token-parser.ts). */
module TokensDescribed {
  import opened Text
  import opened Tokenizing

  // ---------------------------------------------------------------- what begins where

  /** The word `s` starts with: up to the next space or newline after its first character. */
  predicate IsFirstWord(s: string, word: string) {
    && word != "" && word <= s
    && (forall i :: 1 <= i < |word| ==> word[i] != ' ' && word[i] != '\n')
    && (|word| < |s| ==> s[|word|] == ' ' || s[|word|] == '\n')
  }

  /** What has been read since the last token does not end inside a word. */
  predicate AtWordStart(before: string) {
    before == "" || IsWhitespace(before[|before| - 1])
  }

  predicate NumberStarts(address: string, k: nat) {
    k + 8 < |address| && address[k..k + 8] == "/issues/" && IsDigit(address[k + 8])
  }

  /** `#` and the digits of the first issue number in the address. */
  predicate ShowsNumber(address: string, k: nat, text: string) {
    && NumberStarts(address, k) && (forall j :: 0 <= j < k ==> !NumberStarts(address, j))
    && text != "" && text[0] == '#' && AllDigits(text[1..]) && text[1..] <= address[k + 8..]
    && (k + 7 + |text| < |address| ==> !IsDigit(address[k + 7 + |text|]))
  }

  /** An address is shown in full, or as the number of an issue of the repository. */
  ghost predicate ShowsAddress(env: Context, address: string, text: string) {
    if env.repository.Some? && env.repository.value.htmlURL.Some? && env.repository.value.htmlURL.value != ""
       && env.lower(env.repository.value.htmlURL.value) + "/issues/" <= env.lower(address)
       && exists k: nat :: NumberStarts(address, k)
    then exists k: nat :: ShowsNumber(address, k, text)
    else text == address
  }

  /** A word that is a web address, and is not the rest of another word. */
  ghost predicate AddressBegins(env: Context, s: string, before: string, token: Token, source: string) {
    && IsFirstWord(s, source) && AtWordStart(before)
    && (|| ("http://" <= source && |source| > 7 && !IsLineTerminator(source[7]))
        || ("https://" <= source && |source| > 8 && !IsLineTerminator(source[8])))
    && token.HyperlinkMatch? && token.url == source && ShowsAddress(env, source, token.text)
  }

  /** A word that is the name of an emoji, between colons. */
  predicate EmojiBegins(env: Context, s: string, token: Token, source: string) {
    && IsFirstWord(s, source) && |source| >= 2 && source[0] == ':' == source[|source| - 1]
    && (forall i :: 0 <= i < |source| ==> !IsLineTerminator(source[i]))
    && source in env.allEmoji
    && var e := env.allEmoji[source]; token == EmojiMatch(source, e.url, e.emoji, e.description)
  }

  /** A word that is an issue number, but for a comma, a full stop and a parenthesis after it. */
  ghost predicate IssueBegins(env: Context, s: string, token: Token, source: string) {
    && env.repository.Some?
    && |source| >= 2 && source[0] == '#' && AllDigits(source[1..])
    && (exists comma, stop, paren ::
          && comma in ["", ","] && stop in ["", "."] && paren in ["", ")"]
          && IsFirstWord(s, source + comma + stop + paren))
    && token == HyperlinkMatch(source, env.repository.value.htmlURL.GetOr("null") + "/issues/" + NatToString(ParseNat(source[1..])))
  }

  /** A word that is a login, but for an exclamation mark or a comma after it, and is not the
      rest of another word. */
  ghost predicate MentionBegins(env: Context, s: string, before: string, token: Token, source: string) {
    && env.repository.Some? && AtWordStart(before)
    && |source| >= 2 && source[0] == '@' && (forall i :: 1 <= i < |source| ==> IsLoginChar(source[i]))
    && (exists mark :: mark in ["", "!", ","] && IsFirstWord(s, source + mark))
    && token == HyperlinkMatch(source, env.repository.value.siteURL + "/" + source[1..])
  }

  /** `s` starts with `source`, which stands for `token` when `before` has been read since the
      last token. */
  ghost predicate Begins(env: Context, s: string, before: string, token: Token, source: string) {
    || AddressBegins(env, s, before, token, source)
    || EmojiBegins(env, s, token, source)
    || IssueBegins(env, s, token, source)
    || MentionBegins(env, s, before, token, source)
  }

  ghost predicate NothingBegins(env: Context, s: string, before: string) {
    forall token, source :: !Begins(env, s, before, token, source)
  }

  // ---------------------------------------------------------------- words

  lemma NoShorterWord(s: string, word: string, other: string)
    requires IsFirstWord(s, word) && IsFirstWord(s, other)
    ensures |word| <= |other|
  {
    assert forall i :: 0 <= i < |word| ==> word[i] == s[i];
  }

  lemma EndOfWordIs(text: string, index: nat)
    requires index < |text|
    ensures IsFirstWord(text[index..], text[index..EndOfWord(text, index)])
  {
    hide EndOfWord;
    var s := text[index..];
    assert forall i :: 0 <= i < |s| ==> s[i] == text[index + i];
    assert text[index..EndOfWord(text, index)] == s[..EndOfWord(text, index) - index];
  }

  /** The word found by its end is the first word, and the only one. */
  lemma WordIs(text: string, index: nat, word: string)
    requires index < |text|
    ensures IsFirstWord(text[index..], word) <==> word == text[index..EndOfWord(text, index)]
  {
    hide EndOfWord;
    EndOfWordIs(text, index);
    var s, first := text[index..], text[index..EndOfWord(text, index)];
    if IsFirstWord(s, word) {
      NoShorterWord(s, word, first);
      NoShorterWord(s, first, word);
      assert word == s[..|word|] && first == s[..|first|];
    }
  }

  // ---------------------------------------------------------------- addresses

  lemma NumberStartsIs(s: string, k: nat)
    ensures NumberStarts(s, k) <==> k <= |s| && IssueNumberAt(s, k)
    ensures NumberStarts(s, k) ==> s[k..][8..] == s[k + 8..]
  {
    hide DigitPrefix;
    if k <= |s| {
      var rest := s[k..];
      if |rest| >= 8 {
        assert rest[..8] == s[k..k + 8];
        assert rest[8..] == s[k + 8..];
        DigitsStart(rest[8..]);
      }
    }
  }

  lemma DigitsStart(s: string)
    ensures DigitPrefix(s) > 0 <==> s != "" && IsDigit(s[0])
  {
  }

  lemma DigitsAreUnique(s: string, digits: string)
    requires digits <= s && AllDigits(digits) && (|digits| < |s| ==> !IsDigit(s[|digits|]))
    ensures digits == s[..DigitPrefix(s)]
  {
    hide DigitPrefix;
    var n := DigitPrefix(s);
    assert forall i :: 0 <= i < |digits| ==> digits[i] == s[i];
    assert forall i :: 0 <= i < n ==> s[..n][i] == s[i] && IsDigit(s[i]);
    assert digits == s[..|digits|];
  }

  /** What a link shows for an address is what the description says, and nothing else is. */
  lemma ShownIs(env: Context, address: string, text: string)
    ensures ShowsAddress(env, address, text) <==> text == HyperlinkText(env, address)
  {
    hide FindIssueNumber, DigitPrefix, ShowsNumber, NumberStarts;
    FirstIssueNumber(address);
    var found := FindIssueNumber(address);
    if found.None? {
      forall k: nat
        ensures !NumberStarts(address, k)
      {
        NumberStartsIs(address, k);
      }
    } else {
      var k: nat :| k <= |address| && IssueNumberAt(address, k) && (forall j :: 0 <= j < k ==> !IssueNumberAt(address, j))
                    && found.value == address[k..][8..][..DigitPrefix(address[k..][8..])];
      NumberStartsIs(address, k);
      NumberShown(address, k, text);
      forall j: nat
        ensures ShowsNumber(address, j, text) <==> j == k && text == "#" + found.value
      {
        OnlyFirstShown(address, k, j, text);
      }
    }
  }

  lemma OnlyFirstShown(address: string, k: nat, j: nat, text: string)
    requires NumberStarts(address, k) && forall i :: 0 <= i < k ==> !IssueNumberAt(address, i)
    ensures ShowsNumber(address, j, text) <==> j == k && text == "#" + address[k + 8..][..DigitPrefix(address[k + 8..])]
  {
    hide DigitPrefix, NumberStarts, IssueNumberAt;
    forall i: nat | i < k
      ensures !NumberStarts(address, i)
    {
      NumberStartsIs(address, i);
    }
    NumberShown(address, k, text);
    OnlyOneFirst(address, k, j, text);
  }

  lemma OnlyOneFirst(address: string, k: nat, j: nat, text: string)
    requires NumberStarts(address, k) && forall i :: 0 <= i < k ==> !NumberStarts(address, i)
    ensures ShowsNumber(address, j, text) ==> j == k
  {
    hide NumberStarts;
  }

  lemma NumberShown(address: string, k: nat, text: string)
    requires NumberStarts(address, k)
    ensures ShowsNumber(address, k, text) <==>
            && (forall j :: 0 <= j < k ==> !NumberStarts(address, j))
            && text == "#" + address[k + 8..][..DigitPrefix(address[k + 8..])]
  {
    hide DigitPrefix;
    var s := address[k + 8..];
    var n := DigitPrefix(s);
    if ShowsNumber(address, k, text) {
      assert |text| - 1 < |s| ==> s[|text| - 1] == address[k + 7 + |text|];
      DigitsAreUnique(s, text[1..]);
      assert text == "#" + text[1..];
    }
    if text == "#" + s[..n] {
      assert text[1..] == s[..n];
      assert n < |s| ==> s[n] == address[k + 8 + n];
    }
  }

  // ---------------------------------------------------------------- the scanners do what is described

  lemma EmojiScanned(env: Context, text: string, index: nat, token: Token, source: string)
    requires index < |text|
    ensures EmojiBegins(env, text[index..], token, source) <==>
            text[index] == ':' && index + |source| <= |text| && source == text[index..index + |source|]
            && ScanEmoji(env, text, index) == Some(Match(token, index + |source|))
  {
    hide EndOfWord;
    WordIs(text, index, source);
    var word := text[index..EndOfWord(text, index)];
    assert word[0] == text[index];
  }

  lemma AddressScanned(env: Context, text: string, index: nat, current: string, token: Token, source: string)
    requires index < |text|
    ensures AddressBegins(env, text[index..], current, token, source) <==>
            text[index] == 'h' && index + |source| <= |text| && source == text[index..index + |source|]
            && ScanHyperlink(env, text, index, current) == Some(Match(token, index + |source|))
  {
    hide EndOfWord, ShowsAddress, HyperlinkText, IsFirstWord;
    WordIs(text, index, source);
    var word := text[index..EndOfWord(text, index)];
    assert word[0] == text[index];
    AddressIs(word);
    if token.HyperlinkMatch? {
      ShownIs(env, word, token.text);
    }
  }

  lemma AddressIs(word: string)
    requires word != ""
    ensures LooksLikeHyperlink(word) <==>
            (|| ("http://" <= word && |word| > 7 && !IsLineTerminator(word[7]))
             || ("https://" <= word && |word| > 8 && !IsLineTerminator(word[8])))
    ensures LooksLikeHyperlink(word) ==> word[0] == 'h'
  {
  }

  /** Leaving off a mark that is there, or may not be there, from the end of a word. */
  lemma TrimMark(text: string, index: nat, end: nat, c: char, kept: string)
    requires index < end <= |text| && kept != "" && kept[|kept| - 1] != c
    requires text[index..end] == kept || text[index..end] == kept + [c]
    ensures TrimOne(text, index, end, c) == index + |kept|
  {
    if text[index..end] == kept {
      assert text[end - 1] == kept[|kept| - 1];
    } else {
      assert text[end - 1] == (kept + [c])[|kept|];
    }
  }

  lemma IssueEndIs(text: string, index: nat, source: string, comma: string, stop: string, paren: string)
    requires index < |text| && |source| >= 2 && AllDigits(source[1..])
    requires comma in ["", ","] && stop in ["", "."] && paren in ["", ")"]
    requires text[index..EndOfWord(text, index)] == source + comma + stop + paren
    ensures IssueEnd(text, index) == index + |source|
    ensures text[index..IssueEnd(text, index)] == source
  {
    hide EndOfWord, TrimOne;
    var word := EndOfWord(text, index);
    var a, b := source + comma, source + comma + stop;
    assert IsDigit(source[1..][|source| - 2]);
    assert a[|a| - 1] == if comma == "" then source[|source| - 1] else ',';
    assert b[|b| - 1] == if stop == "" then a[|a| - 1] else '.';
    PrefixSlice(text, index, word, b, paren);
    TrimMark(text, index, word, ')', b);
    PrefixSlice(text, index, index + |b|, a, stop);
    TrimMark(text, index, index + |b|, '.', a);
    PrefixSlice(text, index, index + |a|, source, comma);
    TrimMark(text, index, index + |a|, ',', source);
  }

  lemma PrefixSlice(text: string, from: nat, to: nat, a: string, b: string)
    requires from <= to <= |text| && text[from..to] == a + b
    ensures from + |a| <= to && text[from..from + |a|] == a
  {
    assert text[from..from + |a|] == text[from..to][..|a|];
  }

  lemma IssueFound(env: Context, text: string, index: nat, token: Token, source: string)
    requires index < |text| && IssueBegins(env, text[index..], token, source)
    ensures text[index] == '#' && index + |source| <= |text| && source == text[index..index + |source|]
    ensures ScanIssue(text, index, env.repository.value) == Some(Match(token, index + |source|))
  {
    hide EndOfWord, IssueEnd, NatToString, ParseNat, IsFirstWord, AllDigits;
    var comma, stop, paren :|
      && comma in ["", ","] && stop in ["", "."] && paren in ["", ")"]
      && IsFirstWord(text[index..], source + comma + stop + paren);
    WordIs(text, index, source + comma + stop + paren);
    IssueEndIs(text, index, source, comma, stop, paren);
    assert text[index..IssueEnd(text, index)][0] == text[index];
  }

  lemma IssueScanned(env: Context, text: string, index: nat)
    requires index < |text| && env.repository.Some? && ScanIssue(text, index, env.repository.value).Some?
    ensures var m := ScanIssue(text, index, env.repository.value).value;
            index <= m.nextIndex <= |text| && IssueBegins(env, text[index..], m.token, text[index..m.nextIndex])
  {
    hide EndOfWord, IssueEnd, NatToString, ParseNat, IsFirstWord, AllDigits;
    IssueEndsBeforePunctuation(text, index);
    var comma, stop, paren :|
      && comma in ["", ","] && stop in ["", "."] && paren in ["", ")"]
      && text[IssueEnd(text, index)..EndOfWord(text, index)] == comma + stop + paren;
    var source := text[index..IssueEnd(text, index)];
    assert text[index..EndOfWord(text, index)] == source + (comma + stop + paren);
    assert source + (comma + stop + paren) == source + comma + stop + paren;
    WordIs(text, index, source + comma + stop + paren);
  }

  lemma MentionEndIs(text: string, index: nat, source: string, mark: string)
    requires index < |text| && mark in ["", "!", ","]
    requires source != "" && IsLoginChar(source[|source| - 1])
    requires text[index..EndOfWord(text, index)] == source + mark
    ensures MentionEnd(text, index) == index + |source|
    ensures text[index..MentionEnd(text, index)] == source
  {
    hide EndOfWord;
    var end := EndOfWord(text, index);
    PrefixSlice(text, index, end, source, mark);
    assert text[end - 1] == text[index..end][end - 1 - index];
    assert (source + mark)[|source + mark| - 1] == if mark == "" then source[|source| - 1] else mark[0];
  }

  lemma MentionFound(env: Context, text: string, index: nat, current: string, token: Token, source: string)
    requires index < |text| && MentionBegins(env, text[index..], current, token, source)
    ensures text[index] == '@' && index + |source| <= |text| && source == text[index..index + |source|]
    ensures ScanMention(text, index, current, env.repository.value) == Some(Match(token, index + |source|))
  {
    hide EndOfWord, IsFirstWord, MentionEnd, IsLoginChar, IsWhitespace;
    var mark :| mark in ["", "!", ","] && IsFirstWord(text[index..], source + mark);
    WordIs(text, index, source + mark);
    MentionEndIs(text, index, source, mark);
    assert text[index..MentionEnd(text, index)][0] == text[index];
  }

  lemma MentionScanned(env: Context, text: string, index: nat, current: string)
    requires index < |text| && env.repository.Some? && ScanMention(text, index, current, env.repository.value).Some?
    ensures var m := ScanMention(text, index, current, env.repository.value).value;
            index <= m.nextIndex <= |text| && MentionBegins(env, text[index..], current, m.token, text[index..m.nextIndex])
  {
    hide EndOfWord, IsFirstWord, MentionEnd, IsLoginChar, IsWhitespace;
    var mark := MarkLeftOff(text, index);
    var source := text[index..MentionEnd(text, index)];
    assert source + mark == text[index..EndOfWord(text, index)];
    WordIs(text, index, source + mark);
  }

  lemma MarkLeftOff(text: string, index: nat) returns (mark: string)
    requires index < |text|
    ensures MentionEnd(text, index) <= EndOfWord(text, index)
    ensures mark == text[MentionEnd(text, index)..EndOfWord(text, index)] && mark in ["", "!", ","]
  {
    hide EndOfWord;
    var end := EndOfWord(text, index);
    mark := text[MentionEnd(text, index)..end];
    if MentionEnd(text, index) < end {
      assert mark == [text[end - 1]];
      assert text[end - 1] == '!' || text[end - 1] == ',';
      assert mark == "!" || mark == ",";
    } else {
      assert mark == "";
    }
  }

  /** At every place a token is recognized exactly when one begins there as described. */
  lemma RecognizedIff(env: Context, text: string, index: nat, current: string, token: Token, source: string)
    requires index < |text|
    ensures Begins(env, text[index..], current, token, source) <==>
            && index + |source| <= |text| && source == text[index..index + |source|]
            && Recognize(env, text, index, current) == Some(Match(token, index + |source|))
  {
    hide AddressBegins, EmojiBegins, IssueBegins, MentionBegins, ScanEmoji, ScanHyperlink, ScanIssue, ScanMention;
    EmojiScanned(env, text, index, token, source);
    AddressScanned(env, text, index, current, token, source);
    if env.repository.None? {
      NoRepository(env, text[index..], current, token, source);
    } else {
      if IssueBegins(env, text[index..], token, source) {
        IssueFound(env, text, index, token, source);
      }
      if MentionBegins(env, text[index..], current, token, source) {
        MentionFound(env, text, index, current, token, source);
      }
      if ScanIssue(text, index, env.repository.value).Some? {
        IssueScanned(env, text, index);
      }
      if ScanMention(text, index, current, env.repository.value).Some? {
        MentionScanned(env, text, index, current);
      }
    }
  }

  lemma NoRepository(env: Context, s: string, before: string, token: Token, source: string)
    requires env.repository.None?
    ensures !IssueBegins(env, s, token, source) && !MentionBegins(env, s, before, token, source)
  {
  }

  // ---------------------------------------------------------------- all tokens

  /** Nothing begins at any place of `current`, which `rest` follows. */
  ghost predicate NothingIn(env: Context, current: string, rest: string) {
    forall o :: 0 <= o < |current| ==> NothingBegins(env, current[o..] + rest, current[..o])
  }

  /** From left to right, a token that is not text is one that begins where it stands, and
      in text nothing begins at any place. `before` is the text read since the last token
      that is not text. */
  ghost predicate AsDescribed(env: Context, tokens: seq<Token>, firsts: seq<char>, before: string)
    requires |tokens| == |firsts|
  {
    tokens == [] ||
    (var token, rest := tokens[0], Spelled(tokens[1..], firsts[1..]);
     if token.PlainText? then NothingIn(env, token.text, rest) && AsDescribed(env, tokens[1..], firsts[1..], token.text)
     else
       && Begins(env, Source(firsts[0], token) + rest, before, token, Source(firsts[0], token))
       && AsDescribed(env, tokens[1..], firsts[1..], ""))
  }

  lemma FlushedAsDescribed(env: Context, current: string, tokens: seq<Token>, firsts: seq<char>)
    requires |tokens| == |firsts| && AsDescribed(env, tokens, firsts, current) && NothingIn(env, current, Spelled(tokens, firsts))
    ensures |Flushed(current) + tokens| == |First(current) + firsts|
    ensures AsDescribed(env, Flushed(current) + tokens, First(current) + firsts, "")
  {
    hide Begins, NothingIn, Source;
    if current == "" {
      assert Flushed(current) + tokens == tokens && First(current) + firsts == firsts;
    } else {
      var all, allFirsts := Flushed(current) + tokens, First(current) + firsts;
      assert all[1..] == tokens && allFirsts[1..] == firsts;
    }
  }

  lemma TokenAsDescribed(env: Context, token: Token, c: char, tokens: seq<Token>, firsts: seq<char>, before: string)
    requires |tokens| == |firsts| && !token.PlainText? && AsDescribed(env, tokens, firsts, "")
    requires Begins(env, Source(c, token) + Spelled(tokens, firsts), before, token, Source(c, token))
    ensures AsDescribed(env, [token] + tokens, [c] + firsts, before)
    ensures Spelled([token] + tokens, [c] + firsts) == Source(c, token) + Spelled(tokens, firsts)
  {
    hide Begins, NothingIn, Source;
    assert ([token] + tokens)[1..] == tokens && ([c] + firsts)[1..] == firsts;
  }

  lemma NothingInOneMore(env: Context, text: string, index: nat, current: string)
    requires index < |text| && NothingIn(env, current, text[index..])
    requires Recognize(env, text, index, current).None?
    ensures NothingIn(env, current + [text[index]], text[index + 1..])
  {
    hide Begins, Recognize;
    var more, rest := current + [text[index]], text[index + 1..];
    forall o | 0 <= o < |more|
      ensures NothingBegins(env, more[o..] + rest, more[..o])
    {
      if o < |current| {
        assert more[o..] + rest == current[o..] + text[index..] && more[..o] == current[..o];
        assert NothingBegins(env, current[o..] + text[index..], current[..o]);
      } else {
        assert more[o..] + rest == text[index..] && more[..o] == current;
        forall token, source
          ensures !Begins(env, text[index..], current, token, source)
        {
          RecognizedIff(env, text, index, current, token, source);
        }
      }
    }
  }

  lemma {:induction false} TokensFromAsDescribed(env: Context, text: string, index: nat, current: string)
    requires index <= |text| && NothingIn(env, current, text[index..])
    ensures |TokensFrom(env, text, index, current)| == |FirstsFrom(env, text, index, current)|
    ensures AsDescribed(env, TokensFrom(env, text, index, current), FirstsFrom(env, text, index, current), "")
    decreases |text| - index
  {
    hide Begins, Recognize, NothingIn, Source, AsDescribed, Spelled, Flushed, First;
    if index == |text| {
      NothingLeft(env, current);
      assert text[index..] == "";
      FlushedAsDescribed(env, current, [], []);
      assert Flushed(current) + [] == Flushed(current) && First(current) + [] == First(current);
    } else {
      var m := Recognize(env, text, index, current);
      RecognizedToken(env, text, index, current);
      if m.None? {
        NothingInOneMore(env, text, index, current);
        TokensFromAsDescribed(env, text, index + 1, current + [text[index]]);
      } else {
        var token, next, c := m.value.token, m.value.nextIndex, text[index];
        var after, afterFirsts := TokensFrom(env, text, next, ""), FirstsFrom(env, text, next, "");
        NothingInNothing(env, text[next..]);
        TokensFromAsDescribed(env, text, next, "");
        TokensSpell(env, text, next, "");
        assert "" + text[next..] == text[next..];
        assert text[index..next] + text[next..] == text[index..];
        RecognizedIff(env, text, index, current, token, text[index..next]);
        TokenAsDescribed(env, token, c, after, afterFirsts, current);
        FlushedAsDescribed(env, current, [token] + after, [c] + afterFirsts);
        assert Flushed(current) + ([token] + after) == Flushed(current) + [token] + after;
        assert First(current) + ([c] + afterFirsts) == First(current) + [c] + afterFirsts;
      }
    }
  }

  lemma NothingInNothing(env: Context, rest: string)
    ensures NothingIn(env, "", rest)
  {
  }

  lemma NothingLeft(env: Context, current: string)
    ensures AsDescribed(env, [], [], current) && Spelled([], []) == ""
  {
  }

  /** For every text, emoji and repository: each token that is not text is what the word at
      its place stands for, and at no place of a text token does a word stand for anything. */
  lemma TokensAreAsDescribed(env: Context, text: string)
    ensures |Tokens(env, text)| == |Firsts(env, text)|
    ensures AsDescribed(env, Tokens(env, text), Firsts(env, text), "")
  {
    NothingInNothing(env, text[0..]);
    TokensFromAsDescribed(env, text, 0, "");
  }
}
