/** The look-ahead tokenizer for commit messages (app/src/lib/text-token-parser.ts). */
module Tokenizing {
  import opened Text

  datatype Token =
    | PlainText(text: string)
    | EmojiMatch(text: string, path: string, emoji: Option<string>, description: Option<string>)
    | HyperlinkMatch(text: string, url: string)

  datatype Emoji = Emoji(url: string, emoji: Option<string>, description: Option<string>)

  /** `htmlURL`, and the address of the site the repository's endpoint belongs to. */
  datatype GitHubRepository = GitHubRepository(htmlURL: Option<string>, siteURL: string)

  /** What a tokenizer knows: the emoji, the repository if it is on GitHub, and how
      strings are lower-cased. */
  datatype Context = Context(allEmoji: map<string, Emoji>, repository: Option<GitHubRepository>, lower: string -> string)

  /** A recognized token and the index after it. */
  datatype Match = Match(token: Token, nextIndex: nat)

  // ---------------------------------------------------------------- characters and words

  /** `/\s/` */
  predicate IsWhitespace(c: char) {
    var n := c as int;
    || 0x09 <= n <= 0x0d || n == 0x20 || n == 0xa0 || n == 0x1680 || 0x2000 <= n <= 0x200a
    || n == 0x2028 || n == 0x2029 || n == 0x202f || n == 0x205f || n == 0x3000 || n == 0xfeff
  }

  /** The characters `.` does not match in a regular expression. */
  predicate IsLineTerminator(c: char) {
    c == '\n' || c == '\r' || c as int == 0x2028 || c as int == 0x2029
  }

  predicate IsLoginChar(c: char) {
    'a' <= c <= 'z' || 'A' <= c <= 'Z' || IsDigit(c) || c == '-'
  }

  /** The end of the word that starts at `index`: the next newline or space after it. */
  function EndOfWord(text: string, index: nat): (r: nat)
    requires index < |text|
    ensures index < r <= |text|
    ensures forall k :: index < k < r ==> text[k] != '\n' && text[k] != ' '
    ensures r < |text| ==> text[r] == '\n' || text[r] == ' '
  {
    var newline, space := IndexOf(text, '\n', index + 1), IndexOf(text, ' ', index + 1);
    if newline > -1 && space > -1 then if newline < space then newline else space
    else if newline > -1 then newline
    else if space > -1 then space
    else |text|
  }

  /** The end of `text[index..end]` without a final `c`. */
  function TrimOne(text: string, index: nat, end: nat, c: char): (r: nat)
    requires index <= end <= |text|
    ensures index <= r <= end
  {
    if index < end && text[end - 1] == c then end - 1 else end
  }

  /** `/^:.*?:$/` */
  predicate LooksLikeEmoji(s: string) {
    && |s| >= 2 && s[0] == ':' && s[|s| - 1] == ':'
    && forall i :: 0 <= i < |s| ==> !IsLineTerminator(s[i])
  }

  /** `/^#\d+$/` */
  predicate LooksLikeIssue(s: string) {
    |s| >= 2 && s[0] == '#' && AllDigits(s[1..])
  }

  /** `/^@[a-zA-Z0-9\-]+$/` */
  predicate LooksLikeMention(s: string) {
    |s| >= 2 && s[0] == '@' && forall i :: 1 <= i < |s| ==> IsLoginChar(s[i])
  }

  /** `/^https?:\/\/.+/` */
  predicate LooksLikeHyperlink(s: string) {
    || (StartsWith(s, "http://") && |s| > 7 && !IsLineTerminator(s[7]))
    || (StartsWith(s, "https://") && |s| > 8 && !IsLineTerminator(s[8]))
  }

  /** `/\/issues\/(\d+)/.exec(s)`: the digits of the first match. */
  function FindIssueNumber(s: string): Option<string> {
    if s == "" then None
    else if StartsWith(s, "/issues/") && DigitPrefix(s[8..]) > 0 then Some(s[8..][..DigitPrefix(s[8..])])
    else FindIssueNumber(s[1..])
  }

  /** `s` has an issue number at `k`. */
  predicate IssueNumberAt(s: string, k: nat) {
    k <= |s| && StartsWith(s[k..], "/issues/") && DigitPrefix(s[k..][8..]) > 0
  }

  /** The number found is the first in the text, and all its digits. */
  lemma {:induction false} FirstIssueNumber(s: string)
    ensures match FindIssueNumber(s)
            case None => forall k :: 0 <= k <= |s| ==> !IssueNumberAt(s, k)
            case Some(id) =>
              exists k :: 0 <= k <= |s| && IssueNumberAt(s, k) && (forall j :: 0 <= j < k ==> !IssueNumberAt(s, j))
                          && id == s[k..][8..][..DigitPrefix(s[k..][8..])]
  {
    hide DigitPrefix;
    assert s[0..] == s;
    if s != "" && !IssueNumberAt(s, 0) {
      FirstIssueNumber(s[1..]);
      forall k | 0 <= k <= |s[1..]|
        ensures IssueNumberAt(s[1..], k) == IssueNumberAt(s, k + 1)
        ensures s[1..][k..] == s[k + 1..]
      {
        assert s[1..][k..] == s[k + 1..];
      }
      if FindIssueNumber(s).None? {
        forall k | 0 <= k <= |s|
          ensures !IssueNumberAt(s, k)
        {
          if k > 0 {
            assert !IssueNumberAt(s[1..], k - 1);
          }
        }
      } else {
        var k :| 0 <= k <= |s[1..]| && IssueNumberAt(s[1..], k) && (forall j :: 0 <= j < k ==> !IssueNumberAt(s[1..], j))
                 && FindIssueNumber(s).value == s[1..][k..][8..][..DigitPrefix(s[1..][k..][8..])];
        forall j | 0 <= j < k + 1
          ensures !IssueNumberAt(s, j)
        {
          if j > 0 {
            assert !IssueNumberAt(s[1..], j - 1);
          }
        }
        assert IssueNumberAt(s, k + 1) && s[1..][k..] == s[k + 1..];
      }
    }
  }

  // ---------------------------------------------------------------- recognizing tokens

  function ScanEmoji(env: Context, text: string, index: nat): Option<Match>
    requires index < |text|
  {
    var next := EndOfWord(text, index);
    var word := text[index..next];
    if !LooksLikeEmoji(word) || word !in env.allEmoji then None
    else
      var e := env.allEmoji[word];
      Some(Match(EmojiMatch(word, e.url, e.emoji, e.description), next))
  }

  /** Where an issue reference ends: before one of each of `)`, `.` and `,`, in that order. */
  function IssueEnd(text: string, index: nat): (r: nat)
    requires index < |text|
    ensures index <= r <= EndOfWord(text, index)
  {
    var word := EndOfWord(text, index);
    var paren := TrimOne(text, index, word, ')');
    var stop := TrimOne(text, index, paren, '.');
    TrimOne(text, index, stop, ',')
  }

  lemma TrimmedPart(text: string, index: nat, end: nat, c: char)
    requires index <= end <= |text|
    ensures text[TrimOne(text, index, end, c)..end] in ["", [c]]
  {
    if TrimOne(text, index, end, c) < end {
      assert text[end - 1..end] == [c];
    } else {
      assert text[end..end] == "";
    }
  }

  /** What is left off a word is a comma, a full stop and a parenthesis, each optional, in
      this order. */
  lemma IssueEndsBeforePunctuation(text: string, index: nat)
    requires index < |text|
    ensures exists comma, stop, paren ::
              && comma in ["", ","] && stop in ["", "."] && paren in ["", ")"]
              && text[IssueEnd(text, index)..EndOfWord(text, index)] == comma + stop + paren
  {
    hide EndOfWord;
    var word := EndOfWord(text, index);
    var paren := TrimOne(text, index, word, ')');
    var stop := TrimOne(text, index, paren, '.');
    var end := TrimOne(text, index, stop, ',');
    TrimmedPart(text, index, stop, ',');
    TrimmedPart(text, index, paren, '.');
    TrimmedPart(text, index, word, ')');
    assert text[end..word] == text[end..stop] + text[stop..paren] + text[paren..word];
  }

  function ScanIssue(text: string, index: nat, repository: GitHubRepository): Option<Match>
    requires index < |text|
  {
    var next := IssueEnd(text, index);
    var word := text[index..next];
    if !LooksLikeIssue(word) then None
    else Some(Match(HyperlinkMatch(word, IssueURL(repository, ParseNat(word[1..]))), next))
  }

  /** A missing `htmlURL` prints as "null". */
  function IssueURL(repository: GitHubRepository, id: nat): string {
    repository.htmlURL.GetOr("null") + "/issues/" + NatToString(id)
  }

  /** The last character of what has been read since the last token, if any, is not whitespace. */
  predicate InsideWord(current: string) {
    current != "" && !IsWhitespace(current[|current| - 1])
  }

  function MentionEnd(text: string, index: nat): (r: nat)
    requires index < |text|
    ensures index <= r <= |text|
  {
    var word := EndOfWord(text, index);
    if text[word - 1] == '!' || text[word - 1] == ',' then word - 1 else word
  }

  function ScanMention(text: string, index: nat, current: string, repository: GitHubRepository): Option<Match>
    requires index < |text|
  {
    var next := MentionEnd(text, index);
    var word := text[index..next];
    if InsideWord(current) || !LooksLikeMention(word) then None
    else Some(Match(HyperlinkMatch(word, repository.siteURL + "/" + word[1..]), next))
  }

  /** The text shown for a hyperlink: `#id` for an issue of the repository. */
  function HyperlinkText(env: Context, word: string): string {
    if env.repository.None? || env.repository.value.htmlURL.GetOr("") == "" then word
    else if !StartsWith(env.lower(word), env.lower(env.repository.value.htmlURL.GetOr("")) + "/issues/") then word
    else
      match FindIssueNumber(word)
      case None => word
      case Some(id) => "#" + id
  }

  function ScanHyperlink(env: Context, text: string, index: nat, current: string): Option<Match>
    requires index < |text|
  {
    var next := EndOfWord(text, index);
    var word := text[index..next];
    if InsideWord(current) || !LooksLikeHyperlink(word) then None
    else Some(Match(HyperlinkMatch(HyperlinkText(env, word), word), next))
  }

  /** The token recognized at `index`, after `current` has been read since the last one. */
  function Recognize(env: Context, text: string, index: nat, current: string): Option<Match>
    requires index < |text|
  {
    var c := text[index];
    if c == ':' then ScanEmoji(env, text, index)
    else if c == 'h' then ScanHyperlink(env, text, index, current)
    else if c == '#' && env.repository.Some? then ScanIssue(text, index, env.repository.value)
    else if c == '@' && env.repository.Some? then ScanMention(text, index, current, env.repository.value)
    else None
  }

  /** The text a token recognized at the character `c` stands for. Only web addresses are
      recognized at an `h`, and they stand for their address; all others for what they show. */
  function Source(c: char, token: Token): string {
    if c == 'h' && token.HyperlinkMatch? then token.url else token.text
  }

  /** A recognized token is not text, ends after where it starts, and stands for the text between. */
  lemma RecognizedToken(env: Context, text: string, index: nat, current: string)
    requires index < |text|
    ensures var m := Recognize(env, text, index, current);
            m.Some? ==>
              && index < m.value.nextIndex <= |text|
              && !m.value.token.PlainText?
              && text[index..m.value.nextIndex] == Source(text[index], m.value.token)
  {
    hide LooksLikeHyperlink, HyperlinkText, IssueURL, EndOfWord, IssueEnd, MentionEnd;
  }

  // ---------------------------------------------------------------- all tokens

  function Flushed(current: string): seq<Token> {
    if current == "" then [] else [PlainText(current)]
  }

  /** The tokens of the text from `index` on, when `current` has been read and not flushed. */
  function TokensFrom(env: Context, text: string, index: nat, current: string): seq<Token>
    decreases |text| - index
  {
    if index >= |text| then Flushed(current)
    else
      var m := Recognize(env, text, index, current);
      RecognizedToken(env, text, index, current);
      if m.None? then TokensFrom(env, text, index + 1, current + [text[index]])
      else Flushed(current) + [m.value.token] + TokensFrom(env, text, m.value.nextIndex, "")
  }

  function Tokens(env: Context, text: string): seq<Token> {
    TokensFrom(env, text, 0, "")
  }

  // ---------------------------------------------------------------- conservation

  function First(s: string): string {
    if s == "" then "" else [s[0]]
  }

  /** The characters at which the tokens of `TokensFrom` were found, one for each. */
  function FirstsFrom(env: Context, text: string, index: nat, current: string): seq<char>
    decreases |text| - index
  {
    if index >= |text| then First(current)
    else
      var m := Recognize(env, text, index, current);
      RecognizedToken(env, text, index, current);
      if m.None? then FirstsFrom(env, text, index + 1, current + [text[index]])
      else First(current) + [text[index]] + FirstsFrom(env, text, m.value.nextIndex, "")
  }

  function Firsts(env: Context, text: string): seq<char> {
    FirstsFrom(env, text, 0, "")
  }

  /** The sources of the tokens, one after the other. */
  function Spelled(tokens: seq<Token>, firsts: seq<char>): string
    requires |tokens| == |firsts|
  {
    if tokens == [] then "" else Source(firsts[0], tokens[0]) + Spelled(tokens[1..], firsts[1..])
  }

  lemma SpelledThen(current: string, token: Token, c: char, tokens: seq<Token>, firsts: seq<char>)
    requires |tokens| == |firsts|
    ensures |Flushed(current) + [token] + tokens| == |First(current) + [c] + firsts|
    ensures Spelled(Flushed(current) + [token] + tokens, First(current) + [c] + firsts) ==
            current + (Source(c, token) + Spelled(tokens, firsts))
  {
    var all, first := [token] + tokens, [c] + firsts;
    assert all[1..] == tokens && first[1..] == firsts;
    assert Spelled(all, first) == Source(c, token) + Spelled(tokens, firsts);
    if current == "" {
      assert Flushed(current) + [token] + tokens == all && First(current) + [c] + firsts == first;
    } else {
      SpelledOne(current, all, first);
      assert Flushed(current) + [token] + tokens == [PlainText(current)] + all;
      assert First(current) + [c] + firsts == [current[0]] + first;
    }
  }

  lemma SpelledOne(current: string, tokens: seq<Token>, firsts: seq<char>)
    requires current != "" && |tokens| == |firsts|
    ensures Spelled([PlainText(current)] + tokens, [current[0]] + firsts) == current + Spelled(tokens, firsts)
  {
    assert ([PlainText(current)] + tokens)[1..] == tokens && ([current[0]] + firsts)[1..] == firsts;
  }

  lemma FlushedSpelled(current: string)
    ensures |Flushed(current)| == |First(current)|
    ensures Spelled(Flushed(current), First(current)) == current
  {
    if current != "" {
      SpelledOne(current, [], []);
      assert [PlainText(current)] + [] == [PlainText(current)] && [current[0]] + [] == First(current);
    }
  }

  lemma {:induction false} TokensSpell(env: Context, text: string, index: nat, current: string)
    requires index <= |text|
    ensures |TokensFrom(env, text, index, current)| == |FirstsFrom(env, text, index, current)|
    ensures Spelled(TokensFrom(env, text, index, current), FirstsFrom(env, text, index, current)) == current + text[index..]
    decreases |text| - index
  {
    hide Recognize, Source, Spelled, First, Flushed;
    if index == |text| {
      FlushedSpelled(current);
      assert text[index..] == "" && current + "" == current;
    } else {
      var m := Recognize(env, text, index, current);
      RecognizedToken(env, text, index, current);
      if m.None? {
        TokensSpell(env, text, index + 1, current + [text[index]]);
        assert current + [text[index]] + text[index + 1..] == current + text[index..];
      } else {
        var next := m.value.nextIndex;
        TokensSpell(env, text, next, "");
        SpelledThen(current, m.value.token, text[index], TokensFrom(env, text, next, ""), FirstsFrom(env, text, next, ""));
        assert "" + text[next..] == text[next..];
        assert text[index..next] + text[next..] == text[index..];
      }
    }
  }

  /** Conservation: for every text, emoji and repository, the sources of the tokens, one
      after the other, are the text. */
  lemma TokensConserveText(env: Context, text: string)
    ensures |Tokens(env, text)| == |Firsts(env, text)|
    ensures Spelled(Tokens(env, text), Firsts(env, text)) == text
  {
    hide Spelled, TokensFrom, FirstsFrom;
    TokensSpell(env, text, 0, "");
    assert "" + text[0..] == text;
  }

  /** What the tokens show, one after the other. */
  function Shown(tokens: seq<Token>): string {
    if tokens == [] then "" else tokens[0].text + Shown(tokens[1..])
  }

  /** A link that does not show an issue number shows what it stands for. */
  lemma RecognizedShows(env: Context, text: string, index: nat, current: string)
    requires index < |text|
    ensures var m := Recognize(env, text, index, current);
            m.Some? && !StartsWith(m.value.token.text, "#") ==> Source(text[index], m.value.token) == m.value.token.text
  {
    hide LooksLikeHyperlink, IssueURL, EndOfWord, IssueEnd, MentionEnd, FindIssueNumber, LooksLikeEmoji, LooksLikeIssue,
         LooksLikeMention;
  }

  /** A text of which no token shows an issue number is what its tokens show. */
  lemma {:induction false} TokensShow(env: Context, text: string, index: nat, current: string)
    requires index <= |text|
    requires forall t :: t in TokensFrom(env, text, index, current) && t.HyperlinkMatch? ==> !StartsWith(t.text, "#")
    ensures Shown(TokensFrom(env, text, index, current)) == current + text[index..]
    decreases |text| - index
  {
    hide Recognize, Source, StartsWith, Shown;
    if index == |text| {
      ShownFlushed(current, []);
      assert Flushed(current) + [] == Flushed(current) && current + "" == current;
    } else {
      var m := Recognize(env, text, index, current);
      RecognizedToken(env, text, index, current);
      if m.None? {
        TokensShow(env, text, index + 1, current + [text[index]]);
        assert current + [text[index]] + text[index + 1..] == current + text[index..];
      } else {
        var next, token := m.value.nextIndex, m.value.token;
        var after := TokensFrom(env, text, next, "");
        TokensShow(env, text, next, "");
        RecognizedShows(env, text, index, current);
        ShownFlushed(current, [token] + after);
        assert Flushed(current) + ([token] + after) == Flushed(current) + [token] + after;
        assert Source(text[index], token) == token.text by {
          assert token in Flushed(current) + [token] + after;
          NotALinkShows(text[index], token);
        }
        assert Shown([token] + after) == token.text + Shown(after) by {
          ShownFirst(token, after);
        }
        assert text[index..next] + ("" + text[next..]) == text[index..];
      }
    }
  }

  lemma NotALinkShows(c: char, token: Token)
    ensures !token.HyperlinkMatch? ==> Source(c, token) == token.text
  {
  }

  lemma ShownFirst(token: Token, tokens: seq<Token>)
    ensures Shown([token] + tokens) == token.text + Shown(tokens)
  {
    assert ([token] + tokens)[1..] == tokens;
  }

  lemma ShownFlushed(current: string, tokens: seq<Token>)
    ensures Shown(Flushed(current) + tokens) == current + Shown(tokens)
    ensures Shown([]) == ""
  {
    if current == "" {
      assert Flushed(current) + tokens == tokens;
    } else {
      ShownFirst(PlainText(current), tokens);
    }
  }

  /** Unless a link shows an issue number, the text can be read off its tokens alone. */
  lemma TokensShowText(env: Context, text: string)
    requires forall t :: t in Tokens(env, text) && t.HyperlinkMatch? ==> !StartsWith(t.text, "#")
    ensures Shown(Tokens(env, text)) == text
  {
    hide Shown, TokensFrom, StartsWith;
    TokensShow(env, text, 0, "");
    assert "" + text[0..] == text;
  }

  // ---------------------------------------------------------------- text tokens

  /** Text tokens are non-empty and never adjacent. */
  predicate TextsApart(tokens: seq<Token>) {
    && (forall i :: 0 <= i < |tokens| && tokens[i].PlainText? ==> tokens[i].text != "")
    && forall i :: 0 <= i < |tokens| - 1 && tokens[i].PlainText? ==> !tokens[i + 1].PlainText?
  }

  lemma {:induction false} TokensApart(env: Context, text: string, index: nat, current: string)
    requires index <= |text|
    ensures TextsApart(TokensFrom(env, text, index, current))
    decreases |text| - index
  {
    hide Recognize, Source;
    if index < |text| {
      var m := Recognize(env, text, index, current);
      RecognizedToken(env, text, index, current);
      if m.None? {
        TokensApart(env, text, index + 1, current + [text[index]]);
      } else {
        TokensApart(env, text, m.value.nextIndex, "");
        ApartAround(Flushed(current), m.value.token, TokensFrom(env, text, m.value.nextIndex, ""));
      }
    }
  }

  lemma ApartAround(before: seq<Token>, token: Token, after: seq<Token>)
    requires TextsApart(before) && TextsApart(after) && !token.PlainText?
    ensures TextsApart(before + [token] + after)
  {
  }

  lemma TextTokensApart(env: Context, text: string)
    ensures TextsApart(Tokens(env, text))
  {
    TokensApart(env, text, 0, "");
  }

  // ---------------------------------------------------------------- where links start

  /** Links that do not show an issue number only follow text that ends in whitespace. */
  predicate LinksStartWords(tokens: seq<Token>) {
    forall i :: 0 < i < |tokens| && tokens[i].HyperlinkMatch? && !StartsWith(tokens[i].text, "#") && tokens[i - 1].PlainText? ==>
      !InsideWord(tokens[i - 1].text)
  }

  lemma RecognizedStartsWord(env: Context, text: string, index: nat, current: string)
    requires index < |text|
    ensures var m := Recognize(env, text, index, current);
            m.Some? && m.value.token.HyperlinkMatch? && !StartsWith(m.value.token.text, "#") ==> !InsideWord(current)
  {
    hide LooksLikeHyperlink, HyperlinkText, IssueURL, EndOfWord, IssueEnd, MentionEnd, LooksLikeEmoji, InsideWord, LooksLikeMention;
    var m := Recognize(env, text, index, current);
    if m.Some? && text[index] == '#' && env.repository.Some? {
      assert m.value.token.text[..1] == "#";
    }
  }

  lemma {:induction false} LinksStartWordsFrom(env: Context, text: string, index: nat, current: string)
    ensures LinksStartWords(TokensFrom(env, text, index, current))
    decreases |text| - index
  {
    hide Recognize, InsideWord, StartsWith, LinksStartWords;
    if index >= |text| {
      FlushedStartsWord(current);
    } else {
      var m := Recognize(env, text, index, current);
      RecognizedToken(env, text, index, current);
      if m.None? {
        LinksStartWordsFrom(env, text, index + 1, current + [text[index]]);
      } else {
        RecognizedStartsWord(env, text, index, current);
        LinksStartWordsFrom(env, text, m.value.nextIndex, "");
        StartsWordAround(current, m.value.token, TokensFrom(env, text, m.value.nextIndex, ""));
      }
    }
  }

  lemma FlushedStartsWord(current: string)
    ensures LinksStartWords(Flushed(current))
  {
  }

  lemma StartsWordAround(current: string, token: Token, after: seq<Token>)
    requires LinksStartWords(after) && !token.PlainText?
    requires token.HyperlinkMatch? && !StartsWith(token.text, "#") ==> !InsideWord(current)
    ensures LinksStartWords(Flushed(current) + [token] + after)
  {
    hide InsideWord, StartsWith;
  }

  /** A mention, or a web address shown in full, is never taken from inside a word. */
  lemma LinksDoStartWords(env: Context, text: string)
    ensures LinksStartWords(Tokens(env, text))
  {
    LinksStartWordsFrom(env, text, 0, "");
  }

  // ---------------------------------------------------------------- what tokens mean

  /** A token that is not text is a known emoji under its own name, an issue or a login
      of the repository's site, or a web address. */
  predicate Genuine(env: Context, token: Token) {
    match token
    case PlainText(_) => true
    case EmojiMatch(text, path, emoji, description) =>
      text in env.allEmoji && env.allEmoji[text] == Emoji(path, emoji, description)
    case HyperlinkMatch(text, url) =>
      || (LooksLikeHyperlink(url) && text == HyperlinkText(env, url))
      || (env.repository.Some? && LooksLikeIssue(text) && url == IssueURL(env.repository.value, ParseNat(text[1..])))
      || (env.repository.Some? && LooksLikeMention(text) && url == env.repository.value.siteURL + "/" + text[1..])
  }

  lemma RecognizedGenuine(env: Context, text: string, index: nat, current: string)
    requires index < |text| && Recognize(env, text, index, current).Some?
    ensures Genuine(env, Recognize(env, text, index, current).value.token)
  {
    hide LooksLikeHyperlink, HyperlinkText, IssueURL, EndOfWord, IssueEnd, MentionEnd, LooksLikeEmoji;
  }

  lemma {:induction false} TokensGenuine(env: Context, text: string, index: nat, current: string)
    ensures forall t :: t in TokensFrom(env, text, index, current) ==> Genuine(env, t)
    decreases |text| - index
  {
    hide Recognize, Genuine;
    if index >= |text| {
      assert Genuine(env, PlainText(current)) by {
        TextGenuine(env, current);
      }
    } else {
      var m := Recognize(env, text, index, current);
      RecognizedToken(env, text, index, current);
      if m.None? {
        TokensGenuine(env, text, index + 1, current + [text[index]]);
      } else {
        RecognizedGenuine(env, text, index, current);
        TextGenuine(env, current);
        TokensGenuine(env, text, m.value.nextIndex, "");
      }
    }
  }

  lemma TextGenuine(env: Context, s: string)
    ensures Genuine(env, PlainText(s))
  {
  }

  // ---------------------------------------------------------------- the tokenizer

  class Tokenizer {
    const env: Context
    var results: seq<Token>
    var currentString: string

    constructor (allEmoji: map<string, Emoji>, repository: Option<GitHubRepository>, lower: string -> string)
      ensures env == Context(allEmoji, repository, lower)
    {
      env := Context(allEmoji, repository, lower);
      results, currentString := [], "";
    }

    method Reset()
      modifies this
      ensures results == [] && currentString == ""
    {
      results, currentString := [], "";
    }

    method Append(character: char)
      modifies `currentString
      ensures currentString == old(currentString) + [character]
    {
      currentString := currentString + [character];
    }

    method Flush()
      modifies this
      ensures results == old(results) + Flushed(old(currentString)) && currentString == ""
    {
      if |currentString| > 0 {
        results := results + [PlainText(currentString)];
        currentString := "";
      }
    }

    /** Flushes and pushes a recognized token. */
    method Push(m: Match)
      modifies this
      ensures results == old(results) + (Flushed(old(currentString)) + [m.token]) && currentString == ""
    {
      Flush();
      ConcatAssoc(old(results), Flushed(old(currentString)), [m.token]);
      results := results + [m.token];
    }

    method ScanForEmoji(text: string, index: nat) returns (next: Option<nat>)
      requires index < |text|
      modifies this
      ensures Did(ScanEmoji(env, text, index), next)
    {
      var nextIndex := EndOfWord(text, index);
      var maybeEmoji := text[index..nextIndex];
      if !LooksLikeEmoji(maybeEmoji) {
        return None;
      }
      if maybeEmoji !in env.allEmoji {
        return None;
      }
      var emoji := env.allEmoji[maybeEmoji];
      Push(Match(EmojiMatch(maybeEmoji, emoji.url, emoji.emoji, emoji.description), nextIndex));
      return Some(nextIndex);
    }

    method ScanForIssue(text: string, index: nat, repository: GitHubRepository) returns (next: Option<nat>)
      requires index < |text|
      modifies this
      ensures Did(ScanIssue(text, index, repository), next)
    {
      hide EndOfWord, IssueURL, ParseNat, AllDigits;
      var nextIndex := EndOfWord(text, index);
      if nextIndex > index && text[nextIndex - 1] == ')' {
        nextIndex := nextIndex - 1;
      }
      if nextIndex > index && text[nextIndex - 1] == '.' {
        nextIndex := nextIndex - 1;
      }
      if nextIndex > index && text[nextIndex - 1] == ',' {
        nextIndex := nextIndex - 1;
      }
      assert nextIndex == IssueEnd(text, index);
      var maybeIssue := text[index..nextIndex];
      if !LooksLikeIssue(maybeIssue) {
        return None;
      }
      var id := ParseNat(maybeIssue[1..]);
      Push(Match(HyperlinkMatch(maybeIssue, IssueURL(repository, id)), nextIndex));
      return Some(nextIndex);
    }

    method ScanForMention(text: string, index: nat, repository: GitHubRepository) returns (next: Option<nat>)
      requires index < |text|
      modifies this
      ensures Did(ScanMention(text, index, old(currentString), repository), next)
    {
      if InsideWord(currentString) {
        return None;
      }
      var nextIndex := EndOfWord(text, index);
      if text[nextIndex - 1] == '!' || text[nextIndex - 1] == ',' {
        nextIndex := nextIndex - 1;
      }
      var maybeMention := text[index..nextIndex];
      if !LooksLikeMention(maybeMention) {
        return None;
      }
      Push(Match(HyperlinkMatch(maybeMention, repository.siteURL + "/" + maybeMention[1..]), nextIndex));
      return Some(nextIndex);
    }

    method ScanForHyperlink(text: string, index: nat) returns (next: Option<nat>)
      requires index < |text|
      modifies this
      ensures Did(ScanHyperlink(env, text, index, old(currentString)), next)
    {
      if InsideWord(currentString) {
        return None;
      }
      var nextIndex := EndOfWord(text, index);
      var maybeHyperlink := text[index..nextIndex];
      if !LooksLikeHyperlink(maybeHyperlink) {
        return None;
      }
      if env.repository.Some? && env.repository.value.htmlURL.GetOr("") != "" {
        var compare := env.lower(env.repository.value.htmlURL.value);
        if StartsWith(env.lower(maybeHyperlink), compare + "/issues/") {
          var issueMatch := FindIssueNumber(maybeHyperlink);
          if issueMatch.Some? {
            Push(Match(HyperlinkMatch("#" + issueMatch.value, maybeHyperlink), nextIndex));
            return Some(nextIndex);
          }
        }
      }
      Push(Match(HyperlinkMatch(maybeHyperlink, maybeHyperlink), nextIndex));
      return Some(nextIndex);
    }

    /** A scan that finds `m` pushes its token and returns its end; one that finds nothing
        changes nothing. */
    twostate predicate Did(m: Option<Match>, new next: Option<nat>)
      reads this
    {
      match m
      case None => next == None && results == old(results) && currentString == old(currentString)
      case Some(found) =>
        && next == Some(found.nextIndex) && currentString == ""
        && results == old(results) + (Flushed(old(currentString)) + [found.token])
    }

    /** Goes to the end of a match, or takes the character as text. */
    method InspectAndMove(element: char, index: nat, match': Option<nat>) returns (next: nat)
      modifies `currentString
      ensures match'.Some? ==> next == match'.value && currentString == old(currentString)
      ensures match'.None? ==> next == index + 1 && currentString == old(currentString) + [element]
    {
      if match'.Some? {
        next := match'.value;
      } else {
        Append(element);
        next := index + 1;
      }
    }

    /** One step of either main loop. */
    method Step(text: string, i: nat) returns (next: nat)
      requires i < |text|
      modifies this
      ensures i < next <= |text|
      ensures results + TokensFrom(env, text, next, currentString) ==
              old(results) + TokensFrom(env, text, i, old(currentString))
    {
      hide ScanEmoji, ScanIssue, ScanMention, ScanHyperlink;
      RecognizedToken(env, text, i, currentString);
      var element := text[i];
      var found: Option<nat> := None;
      if element == ':' {
        found := ScanForEmoji(text, i);
      } else if element == 'h' {
        found := ScanForHyperlink(text, i);
      } else if element == '#' && env.repository.Some? {
        found := ScanForIssue(text, i, env.repository.value);
      } else if element == '@' && env.repository.Some? {
        found := ScanForMention(text, i, env.repository.value);
      }
      assert Did(Recognize(env, text, i, old(currentString)), found);
      next := InspectAndMove(element, i, found);
      if found.Some? {
        ConcatAssoc(old(results), Flushed(old(currentString)) + [Recognize(env, text, i, old(currentString)).value.token],
                    TokensFrom(env, text, next, ""));
      }
    }

    /** The tokens of a text, whatever the tokenizer did before. */
    method Tokenize(text: string) returns (r: seq<Token>)
      modifies this
      ensures r == Tokens(env, text)
    {
      Reset();
      var i := 0;
      assert [] + Tokens(env, text) == Tokens(env, text);
      while i < |text|
        invariant 0 <= i <= |text|
        invariant results + TokensFrom(env, text, i, currentString) == Tokens(env, text)
      {
        i := Step(text, i);
      }
      Flush();
      r := results;
    }
  }
}
