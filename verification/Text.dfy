/** String helpers shared by the models: the JavaScript string operations the
    sources use, and the facts about them the proofs need. */
module Text {

  datatype Option<+T> = None | Some(value: T)
  {
    function GetOr(default: T): T {
      if Some? then value else default
    }
  }

  datatype Result<+T, +E> = Success(value: T) | Failure(error: E)
  {
    predicate IsFailure() {
      Failure?
    }

    function PropagateFailure<U>(): Result<U, E>
      requires Failure?
    {
      Failure(error)
    }

    function Extract(): T
      requires Success?
    {
      value
    }

    function Map<U>(f: T -> U): Result<U, E> {
      match this
      case Success(v) => Result.Success(f(v))
      case Failure(e) => Result.Failure(e)
    }
  }

  /** `s.indexOf(c, from)`: the first position of `c` at or after `from`, or -1. */
  function IndexOf(s: string, c: char, from: nat): (r: int)
    ensures r == -1 ==> forall k :: from <= k < |s| ==> s[k] != c
    ensures r != -1 ==> from <= r < |s| && s[r] == c && forall k :: from <= k < r ==> s[k] != c
    decreases |s| - from
  {
    if from >= |s| then -1
    else if s[from] == c then from
    else IndexOf(s, c, from + 1)
  }

  /** `s.substring(1)`. */
  function Rest1(s: string): string {
    if s == "" then "" else s[1..]
  }

  /** `s.startsWith(prefix)`. */
  predicate StartsWith(s: string, prefix: string) {
    prefix <= s
  }

  /** `s.endsWith(suffix)`. */
  predicate EndsWith(s: string, suffix: string) {
    |suffix| <= |s| && s[|s| - |suffix|..] == suffix
  }

  /** Where the first line of `s` ends: its first newline, or the end of `s`. */
  function LineEnd(s: string): (r: nat)
    ensures r <= |s| && forall k :: 0 <= k < r ==> s[k] != '\n'
    ensures r < |s| ==> s[r] == '\n'
  {
    var i := IndexOf(s, '\n', 0);
    if i == -1 then |s| else i
  }

  function FirstLine(s: string): (l: string)
    ensures '\n' !in l
    ensures l <= s
  {
    s[..LineEnd(s)]
  }

  /** What follows the first line and its newline. */
  function AfterLine(s: string): (r: string)
    ensures s != "" ==> |r| < |s|
  {
    if LineEnd(s) < |s| then s[LineEnd(s) + 1..] else ""
  }

  /** The lines of `s`. A final newline ends the last line, it does not start another. */
  function Lines(s: string): (r: seq<string>)
    decreases |s|
  {
    if s == "" then [] else [FirstLine(s)] + Lines(AfterLine(s))
  }

  lemma FirstLineOf(line: string, rest: string)
    requires '\n' !in line
    ensures FirstLine(line + "\n" + rest) == line
    ensures AfterLine(line + "\n" + rest) == rest
  {
    var s := line + "\n" + rest;
    assert s[|line|] == '\n' && forall k :: 0 <= k < |line| ==> s[k] == line[k];
    assert LineEnd(s) == |line|;
    assert s[..|line|] == line;
    assert s[|line| + 1..] == rest;
  }

  /** `s.split(sep)` for a one-character separator. */
  function Split(s: string, sep: char): (r: seq<string>)
    ensures |r| >= 1
  {
    var i := IndexOf(s, sep, 0);
    if i == -1 then [s] else [s[..i]] + Split(s[i + 1..], sep)
  }

  /** `parts.join(sep)` for a one-character separator. */
  function Join(parts: seq<string>, sep: char): string {
    if parts == [] then ""
    else if |parts| == 1 then parts[0]
    else parts[0] + [sep] + Join(parts[1..], sep)
  }

  lemma SplitHead(part: string, sep: char, rest: string)
    requires sep !in part
    ensures Split(part + [sep] + rest, sep) == [part] + Split(rest, sep)
  {
    var s := part + [sep] + rest;
    assert s[|part|] == sep && forall k :: 0 <= k < |part| ==> s[k] == part[k];
    assert IndexOf(s, sep, 0) == |part|;
    assert s[..|part|] == part && s[|part| + 1..] == rest;
  }

  lemma SplitOne(part: string, sep: char)
    requires sep !in part
    ensures Split(part, sep) == [part]
  {
    assert IndexOf(part, sep, 0) == -1;
  }

  /** Splitting undoes joining when no part holds the separator. */
  lemma {:induction false} SplitJoin(parts: seq<string>, sep: char)
    requires parts != [] && forall p :: p in parts ==> sep !in p
    ensures Split(Join(parts, sep), sep) == parts
  {
    if |parts| == 1 {
      SplitOne(parts[0], sep);
    } else {
      SplitHead(parts[0], sep, Join(parts[1..], sep));
      SplitJoin(parts[1..], sep);
    }
  }

  /** No part that `Split` returns holds the separator, and joining the parts gives the text back. */
  lemma {:induction false} JoinSplit(s: string, sep: char)
    ensures Join(Split(s, sep), sep) == s
    ensures forall p :: p in Split(s, sep) ==> sep !in p
    decreases |s|
  {
    var i := IndexOf(s, sep, 0);
    if i == -1 {
    } else {
      JoinSplit(s[i + 1..], sep);
      assert s == s[..i] + [sep] + s[i + 1..];
      assert Split(s, sep)[1..] == Split(s[i + 1..], sep);
    }
  }

  lemma ConcatAssoc<T>(a: seq<T>, b: seq<T>, c: seq<T>)
    ensures a + (b + c) == a + b + c
  {
  }

  /** A result of a loop that has already produced `done`. */
  function Prepend<T, E>(done: seq<T>, r: Result<seq<T>, E>): Result<seq<T>, E> {
    match r
    case Success(more) => Success(done + more)
    case Failure(e) => Failure(e)
  }

  lemma PrependNone<T, E>(r: Result<seq<T>, E>)
    ensures Prepend([], r) == r
  {
    if r.Success? {
      assert [] + r.value == r.value;
    }
  }

  lemma PrependTwice<T, E>(a: seq<T>, b: seq<T>, r: Result<seq<T>, E>)
    ensures Prepend(a, Prepend(b, r)) == Prepend(a + b, r)
  {
    if r.Success? {
      ConcatAssoc(a, b, r.value);
    }
  }

  predicate IsDigit(c: char) {
    '0' <= c <= '9'
  }

  predicate AllDigits(s: string) {
    forall i :: 0 <= i < |s| ==> IsDigit(s[i])
  }

  /** The longest digit prefix of `s`, what a greedy `\d*` matches. */
  function DigitPrefix(s: string): (r: nat)
    ensures r <= |s| && AllDigits(s[..r])
    ensures r < |s| ==> !IsDigit(s[r])
  {
    if s == "" || !IsDigit(s[0]) then 0
    else
      var k := DigitPrefix(s[1..]);
      assert s[..k + 1] == [s[0]] + s[1..][..k];
      k + 1
  }

  lemma {:induction false} DigitPrefixOf(d: string, rest: string)
    requires AllDigits(d) && (rest == "" || !IsDigit(rest[0]))
    ensures DigitPrefix(d + rest) == |d|
    ensures (d + rest)[..|d|] == d && (d + rest)[|d|..] == rest
  {
    if d == "" {
      assert d + rest == rest;
    } else {
      assert (d + rest)[1..] == d[1..] + rest;
      DigitPrefixOf(d[1..], rest);
    }
  }

  /** `parseInt(s, 10)` of a digit string, over unbounded integers. */
  function ParseNat(s: string): nat
    requires AllDigits(s)
  {
    if s == "" then 0
    else ParseNat(s[..|s| - 1]) * 10 + (s[|s| - 1] as int - '0' as int)
  }

  function DigitChar(d: nat): (c: char)
    requires d < 10
    ensures IsDigit(c) && c as int - '0' as int == d
  {
    ('0' as int + d) as char
  }

  /** Decimal rendering of a number, as in a template literal. */
  function NatToString(n: nat): (s: string)
    ensures s != "" && AllDigits(s)
    ensures ParseNat(s) == n
  {
    if n < 10 then [DigitChar(n)]
    else
      var s := NatToString(n / 10) + [DigitChar(n % 10)];
      assert s[..|s| - 1] == NatToString(n / 10);
      s
  }
}
