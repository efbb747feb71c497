/** Parsing `git status --porcelain=2 -z` (app/src/lib/status-parser.ts), and printing it
    as "Porcelain Format Version 2" of the git-status documentation says. */
module StatusParser {
  import opened Text

  datatype StatusItem =
    | Header(value: string)
    | Entry(path: string, statusCode: string, submoduleStatusCode: string, oldPath: Option<string>)

  datatype StatusError = BadChangedEntry | BadRenamedOrCopiedEntry | MissingOldPath | BadUnmergedEntry

  // ---------------------------------------------------------------- fields

  /** The kinds of space-terminated fields before the path, as the regular expressions have them. */
  datatype FieldKind = StatusCode | UnmergedCode | SubmoduleCode | Number | Hash | Score

  predicate AllIn(s: string, chars: string) {
    forall i :: 0 <= i < |s| ==> s[i] in chars
  }

  predicate Matches(kind: FieldKind, s: string) {
    match kind
    case StatusCode => |s| == 2 && AllIn(s, "MADRCUTX?!.")
    case UnmergedCode => |s| == 2 && AllIn(s, "DAU")
    case SubmoduleCode =>
      s == "N..." || (|s| == 4 && s[0] == 'S' && s[1] in "C." && s[2] in "M." && s[3] in "U.")
    case Number => s != "" && AllDigits(s)
    case Hash => s != "" && AllIn(s, "abcdef0123456789")
    case Score => |s| >= 2 && (s[0] == 'R' || s[0] == 'C') && AllDigits(s[1..])
  }

  const ChangedFields := [StatusCode, SubmoduleCode, Number, Number, Number, Hash, Hash]
  const RenamedFields := [StatusCode, SubmoduleCode, Number, Number, Number, Hash, Hash, Score]
  const UnmergedFields := [UnmergedCode, SubmoduleCode, Number, Number, Number, Number, Hash, Hash, Hash]

  /** Matches fields, each followed by a space, and returns them with what follows. No
      field can hold a space, so each ends at the next one. */
  function MatchFields(s: string, kinds: seq<FieldKind>): (r: Option<(seq<string>, string)>)
    ensures r.Some? ==> |r.value.0| == |kinds|
    decreases |kinds|
  {
    if kinds == [] then Some(([], s))
    else
      var i := IndexOf(s, ' ', 0);
      if i == -1 || !Matches(kinds[0], s[..i]) then None
      else
        match MatchFields(s[i + 1..], kinds[1..])
        case None => None
        case Some((fields, path)) => Some(([s[..i]] + fields, path))
  }

  /** An entry of a type character, a space, fields and a path. */
  function MatchEntry(field: string, prefix: string, kinds: seq<FieldKind>): (r: Option<(seq<string>, string)>)
    ensures r.Some? ==> |r.value.0| == |kinds|
  {
    if StartsWith(field, prefix) then MatchFields(field[|prefix|..], kinds) else None
  }

  // ---------------------------------------------------------------- parsing

  function ParseChangedEntry(field: string): Result<StatusItem, StatusError> {
    match MatchEntry(field, "1 ", ChangedFields)
    case None => Failure(BadChangedEntry)
    case Some((fields, path)) => Success(Entry(path, fields[0], fields[1], None))
  }

  function ParseRenamedOrCopiedEntry(field: string, oldPath: Option<string>): Result<StatusItem, StatusError> {
    match MatchEntry(field, "2 ", RenamedFields)
    case None => Failure(BadRenamedOrCopiedEntry)
    case Some((fields, path)) =>
      if oldPath.GetOr("") == "" then Failure(MissingOldPath)
      else Success(Entry(path, fields[0], fields[1], oldPath))
  }

  function ParseUnmergedEntry(field: string): Result<StatusItem, StatusError> {
    match MatchEntry(field, "u ", UnmergedFields)
    case None => Failure(BadUnmergedEntry)
    case Some((fields, path)) => Success(Entry(path, fields[0], fields[1], None))
  }

  /** `substring(2)` is the path. */
  function ParseUntrackedEntry(field: string): StatusItem {
    Entry(if |field| <= 2 then "" else field[2..], "??", "????", None)
  }

  predicate IsHeader(field: string) {
    StartsWith(field, "# ") && |field| > 2
  }

  predicate HasKind(field: string, kind: char) {
    field != "" && field[0] == kind
  }

  /** What the first of these tokens stands for, and how many tokens it takes. */
  function ParseFirst(tokens: seq<string>): (r: Result<(seq<StatusItem>, nat), StatusError>)
    requires tokens != []
    ensures r.Success? ==> r.value.1 >= 1
  {
    var field := tokens[0];
    if IsHeader(field) then Success(([Header(field[2..])], 1))
    else if HasKind(field, '1') then
      var e :- ParseChangedEntry(field);
      Success(([e], 1))
    else if HasKind(field, '2') then
      var e :- ParseRenamedOrCopiedEntry(field, if |tokens| > 1 then Some(tokens[1]) else None);
      Success(([e], 2))
    else if HasKind(field, 'u') then
      var e :- ParseUnmergedEntry(field);
      Success(([e], 1))
    else if HasKind(field, '?') then Success(([ParseUntrackedEntry(field)], 1))
    else Success(([], 1))
  }

  function ParseTokens(tokens: seq<string>): Result<seq<StatusItem>, StatusError>
    decreases |tokens|
  {
    if tokens == [] then Success([])
    else
      var (items, n) :- ParseFirst(tokens);
      var rest :- ParseTokens(if n <= |tokens| then tokens[n..] else []);
      Success(items + rest)
  }

  method ParsePorcelainStatus(output: string) returns (r: Result<seq<StatusItem>, StatusError>)
    ensures r == ParseTokens(Split(output, '\0'))
  {
    hide ParseChangedEntry, ParseRenamedOrCopiedEntry, ParseUnmergedEntry, ParseUntrackedEntry, IsHeader, HasKind, Split;
    var entries: seq<StatusItem> := [];
    var tokens := Split(output, '\0');
    var i := 0;
    assert tokens[0..] == tokens;
    PrependNone(ParseTokens(tokens));
    while i < |tokens|
      invariant 0 <= i
      invariant ParseTokens(tokens) == Prepend(entries, ParseTokens(if i <= |tokens| then tokens[i..] else []))
      decreases |tokens| - i
    {
      var field := tokens[i];
      ghost var pending := tokens[i..];
      var n := 1;
      var found: seq<StatusItem> := [];
      if IsHeader(field) {
        found := [Header(if |field| <= 2 then "" else field[2..])];
      } else if HasKind(field, '1') {
        var e := ParseChangedEntry(field);
        if e.Failure? {
          return Failure(e.error);
        }
        found := [e.value];
      } else if HasKind(field, '2') {
        n := 2;
        var e := ParseRenamedOrCopiedEntry(field, if i + 1 < |tokens| then Some(tokens[i + 1]) else None);
        if e.Failure? {
          return Failure(e.error);
        }
        found := [e.value];
      } else if HasKind(field, 'u') {
        var e := ParseUnmergedEntry(field);
        if e.Failure? {
          return Failure(e.error);
        }
        found := [e.value];
      } else if HasKind(field, '?') {
        found := [ParseUntrackedEntry(field)];
      }
      assert ParseFirst(pending) == Success((found, n)) by {
        HeaderHasValue(field);
      }
      PrependTwice(entries, found, ParseTokens(if n <= |pending| then pending[n..] else []));
      assert n <= |pending| ==> pending[n..] == tokens[i + n..];
      entries := entries + found;
      i := i + n;
    }
    assert entries + [] == entries;
    r := Success(entries);
  }

  lemma HeaderHasValue(field: string)
    ensures IsHeader(field) ==> |field| > 2
  {
  }

  // ---------------------------------------------------------------- printing

  /** What git prints: headers, the four kinds of entries, and ignored paths. */
  datatype Record =
    | HeaderRecord(value: string)
    | ChangedRecord(fields: seq<string>, path: string)
    | RenamedRecord(fields: seq<string>, path: string, oldPath: string)
    | UnmergedRecord(fields: seq<string>, path: string)
    | UntrackedRecord(path: string)
    | IgnoredRecord(path: string)

  predicate IsStatusCode(s: string) {
    |s| == 2 && forall i :: 0 <= i < 2 ==> s[i] in {'M', 'A', 'D', 'R', 'C', 'U', 'T', 'X', '?', '!', '.'}
  }

  predicate IsUnmergedCode(s: string) {
    |s| == 2 && forall i :: 0 <= i < 2 ==> s[i] in {'D', 'A', 'U'}
  }

  predicate IsSubmoduleCode(s: string) {
    s == "N..." || (|s| == 4 && s[0] == 'S' && s[1] in {'C', '.'} && s[2] in {'M', '.'} && s[3] in {'U', '.'})
  }

  predicate IsNumber(s: string) {
    s != "" && forall i :: 0 <= i < |s| ==> '0' <= s[i] <= '9'
  }

  predicate IsHash(s: string) {
    s != "" && forall i :: 0 <= i < |s| ==> 'a' <= s[i] <= 'f' || '0' <= s[i] <= '9'
  }

  predicate IsScore(s: string) {
    |s| >= 2 && (s[0] == 'R' || s[0] == 'C') && forall i :: 1 <= i < |s| ==> '0' <= s[i] <= '9'
  }

  /** Status, submodule state, three file modes, two object names. */
  predicate ChangedForm(fields: seq<string>) {
    && |fields| == 7 && IsStatusCode(fields[0]) && IsSubmoduleCode(fields[1])
    && IsNumber(fields[2]) && IsNumber(fields[3]) && IsNumber(fields[4]) && IsHash(fields[5]) && IsHash(fields[6])
  }

  /** The same, and a rename or copy score. */
  predicate RenamedForm(fields: seq<string>) {
    |fields| == 8 && ChangedForm(fields[..7]) && IsScore(fields[7])
  }

  /** Status, submodule state, four file modes, three object names. */
  predicate UnmergedForm(fields: seq<string>) {
    && |fields| == 9 && IsUnmergedCode(fields[0]) && IsSubmoduleCode(fields[1])
    && IsNumber(fields[2]) && IsNumber(fields[3]) && IsNumber(fields[4]) && IsNumber(fields[5])
    && IsHash(fields[6]) && IsHash(fields[7]) && IsHash(fields[8])
  }

  predicate FieldsMatch(fields: seq<string>, kinds: seq<FieldKind>) {
    |fields| == |kinds| && forall i :: 0 <= i < |fields| ==> Matches(kinds[i], fields[i])
  }

  predicate NulFree(s: string) {
    '\0' !in s
  }

  predicate WellFormed(r: Record) {
    match r
    case HeaderRecord(value) => value != "" && NulFree(value)
    case ChangedRecord(fields, path) => ChangedForm(fields) && NulFree(path)
    case RenamedRecord(fields, path, oldPath) =>
      RenamedForm(fields) && NulFree(path) && oldPath != "" && NulFree(oldPath)
    case UnmergedRecord(fields, path) => UnmergedForm(fields) && NulFree(path)
    case UntrackedRecord(path) => NulFree(path)
    case IgnoredRecord(path) => NulFree(path)
  }

  function PrintFields(fields: seq<string>): string {
    if fields == [] then "" else fields[0] + " " + PrintFields(fields[1..])
  }

  /** The tokens of a record; a rename has its old path as a token of its own. */
  function RecordTokens(r: Record): seq<string> {
    match r
    case HeaderRecord(value) => ["# " + value]
    case ChangedRecord(fields, path) => ["1 " + (PrintFields(fields) + path)]
    case RenamedRecord(fields, path, oldPath) => ["2 " + (PrintFields(fields) + path), oldPath]
    case UnmergedRecord(fields, path) => ["u " + (PrintFields(fields) + path)]
    case UntrackedRecord(path) => ["? " + path]
    case IgnoredRecord(path) => ["! " + path]
  }

  function AllTokens(records: seq<Record>): seq<string> {
    if records == [] then [] else RecordTokens(records[0]) + AllTokens(records[1..])
  }

  /** Every token ends with a NUL. */
  function PrintTokens(tokens: seq<string>): string {
    if tokens == [] then "" else tokens[0] + ['\0'] + PrintTokens(tokens[1..])
  }

  function Print(records: seq<Record>): string {
    PrintTokens(AllTokens(records))
  }

  /** What a record means; ignored paths mean nothing. */
  function RecordItems(r: Record): seq<StatusItem>
    requires WellFormed(r)
  {
    match r
    case HeaderRecord(value) => [Header(value)]
    case ChangedRecord(fields, path) => [Entry(path, fields[0], fields[1], None)]
    case RenamedRecord(fields, path, oldPath) => [Entry(path, fields[0], fields[1], Some(oldPath))]
    case UnmergedRecord(fields, path) => [Entry(path, fields[0], fields[1], None)]
    case UntrackedRecord(path) => [Entry(path, "??", "????", None)]
    case IgnoredRecord(_) => []
  }

  function AllItems(records: seq<Record>): seq<StatusItem>
    requires forall i :: 0 <= i < |records| ==> WellFormed(records[i])
  {
    if records == [] then [] else RecordItems(records[0]) + AllItems(records[1..])
  }

  // ---------------------------------------------------------------- round trip

  /** Each kind of field is matched exactly when it has the documented form. */
  lemma MatchesIs(s: string)
    ensures Matches(StatusCode, s) <==> IsStatusCode(s)
    ensures Matches(UnmergedCode, s) <==> IsUnmergedCode(s)
    ensures Matches(SubmoduleCode, s) <==> IsSubmoduleCode(s)
    ensures Matches(Number, s) <==> IsNumber(s)
    ensures Matches(Hash, s) <==> IsHash(s)
    ensures Matches(Score, s) <==> IsScore(s)
  {
    HashMatches(s);
    ScoreMatches(s);
    CodeMatches(s);
  }

  lemma HashMatches(s: string)
    ensures Matches(Hash, s) <==> IsHash(s)
  {
    assert forall c: char :: c in "abcdef0123456789" <==> 'a' <= c <= 'f' || '0' <= c <= '9';
  }

  lemma ScoreMatches(s: string)
    ensures Matches(Score, s) <==> IsScore(s)
  {
    if |s| >= 2 {
      assert forall i :: 1 <= i < |s| ==> s[i] == s[1..][i - 1];
      assert forall i :: 0 <= i < |s[1..]| ==> s[1..][i] == s[i + 1];
    }
  }

  lemma CodeMatches(s: string)
    ensures Matches(StatusCode, s) <==> IsStatusCode(s)
    ensures Matches(UnmergedCode, s) <==> IsUnmergedCode(s)
  {
    assert forall c: char :: c in "MADRCUTX?!." <==> c in {'M', 'A', 'D', 'R', 'C', 'U', 'T', 'X', '?', '!', '.'};
    assert forall c: char :: c in "DAU" <==> c in {'D', 'A', 'U'};
  }

  lemma FormsMatch(fields: seq<string>)
    ensures ChangedForm(fields) <==> FieldsMatch(fields, ChangedFields)
    ensures RenamedForm(fields) <==> FieldsMatch(fields, RenamedFields)
    ensures UnmergedForm(fields) <==> FieldsMatch(fields, UnmergedFields)
  {
    hide Matches, IsStatusCode, IsUnmergedCode, IsSubmoduleCode, IsNumber, IsHash, IsScore;
    forall s: string
      ensures Matches(StatusCode, s) <==> IsStatusCode(s)
      ensures Matches(UnmergedCode, s) <==> IsUnmergedCode(s)
      ensures Matches(SubmoduleCode, s) <==> IsSubmoduleCode(s)
      ensures Matches(Number, s) <==> IsNumber(s)
      ensures Matches(Hash, s) <==> IsHash(s)
      ensures Matches(Score, s) <==> IsScore(s)
    {
      MatchesIs(s);
    }
  }

  /** What matches is what is printed. */
  lemma {:induction false} MatchedIsPrinted(s: string, kinds: seq<FieldKind>)
    requires MatchFields(s, kinds).Some?
    ensures var (fields, path) := MatchFields(s, kinds).value;
            FieldsMatch(fields, kinds) && s == PrintFields(fields) + path
    decreases |kinds|
  {
    hide Matches;
    if kinds == [] {
      assert "" + s == s;
    } else {
      var i := IndexOf(s, ' ', 0);
      MatchedIsPrinted(s[i + 1..], kinds[1..]);
      var (fields, path) := MatchFields(s[i + 1..], kinds[1..]).value;
      assert ([s[..i]] + fields)[1..] == fields;
      assert s == s[..i] + " " + s[i + 1..];
      assert s[..i] + " " + (PrintFields(fields) + path) == s[..i] + " " + PrintFields(fields) + path;
    }
  }

  lemma FieldHasNoSeparator(kind: FieldKind, s: string)
    requires Matches(kind, s)
    ensures ' ' !in s && NulFree(s)
  {
    match kind
    case Score => assert forall i :: 1 <= i < |s| ==> s[i] == s[1..][i - 1];
    case _ =>
  }

  lemma {:induction false} MatchPrinted(fields: seq<string>, kinds: seq<FieldKind>, path: string)
    requires FieldsMatch(fields, kinds)
    ensures MatchFields(PrintFields(fields) + path, kinds) == Some((fields, path))
    decreases |kinds|
  {
    hide Matches;
    if kinds == [] {
      assert "" + path == path;
    } else {
      var rest := PrintFields(fields[1..]) + path;
      var s := fields[0] + " " + rest;
      assert PrintFields(fields) + path == s;
      FieldHasNoSeparator(kinds[0], fields[0]);
      SpaceAfter(fields[0], rest);
      MatchPrinted(fields[1..], kinds[1..], path);
      assert [fields[0]] + fields[1..] == fields;
    }
  }

  lemma SpaceAfter(field: string, rest: string)
    requires ' ' !in field
    ensures var s := field + " " + rest; IndexOf(s, ' ', 0) == |field| && s[..|field|] == field && s[|field| + 1..] == rest
  {
    var s := field + " " + rest;
    assert s[|field|] == ' ' && forall k :: 0 <= k < |field| ==> s[k] == field[k];
    assert IndexOf(s, ' ', 0) == |field|;
  }

  lemma {:induction false} FieldsNulFree(fields: seq<string>, kinds: seq<FieldKind>)
    requires FieldsMatch(fields, kinds)
    ensures NulFree(PrintFields(fields))
    decreases |fields|
  {
    hide Matches;
    if fields != [] {
      assert Matches(kinds[0], fields[0]);
      FieldHasNoSeparator(kinds[0], fields[0]);
      FieldsNulFree(fields[1..], kinds[1..]);
    }
  }

  lemma TokensNulFree(r: Record)
    requires WellFormed(r)
    ensures forall i :: 0 <= i < |RecordTokens(r)| ==> NulFree(RecordTokens(r)[i])
  {
    hide PrintFields, FieldsMatch, ChangedFields, RenamedFields, UnmergedFields, ChangedForm, RenamedForm, UnmergedForm;
    match r
    case ChangedRecord(fields, _) =>
      FormsMatch(fields);
      FieldsNulFree(fields, ChangedFields);
    case RenamedRecord(fields, _, _) =>
      FormsMatch(fields);
      FieldsNulFree(fields, RenamedFields);
    case UnmergedRecord(fields, _) =>
      FormsMatch(fields);
      FieldsNulFree(fields, UnmergedFields);
    case _ =>
  }

  lemma {:induction false} AllTokensNulFree(records: seq<Record>)
    requires forall i :: 0 <= i < |records| ==> WellFormed(records[i])
    ensures forall i :: 0 <= i < |AllTokens(records)| ==> NulFree(AllTokens(records)[i])
  {
    hide WellFormed, RecordTokens, NulFree;
    if records != [] {
      TokensNulFree(records[0]);
      AllTokensNulFree(records[1..]);
    }
  }

  lemma {:induction false} SplitPrinted(tokens: seq<string>)
    requires forall i :: 0 <= i < |tokens| ==> NulFree(tokens[i])
    ensures Split(PrintTokens(tokens), '\0') == tokens + [""]
  {
    hide Split;
    if tokens == [] {
      SplitOne("", '\0');
    } else {
      assert NulFree(tokens[0]);
      SplitPrinted(tokens[1..]);
      SplitHead(tokens[0], '\0', PrintTokens(tokens[1..]));
      assert [tokens[0]] + (tokens[1..] + [""]) == tokens + [""];
    }
  }

  /** The tokens of one record, whatever follows, are read as that record. In particular
      the old path of a rename is never looked at as an entry. */
  lemma RecordParses(r: Record, rest: seq<string>)
    requires WellFormed(r)
    ensures ParseFirst(RecordTokens(r) + rest) == Success((RecordItems(r), |RecordTokens(r)|))
  {
    hide PrintFields, FieldsMatch, ChangedFields, RenamedFields, UnmergedFields, MatchEntry, ChangedForm, UnmergedForm, RenamedForm;
    match r
    case HeaderRecord(value) =>
      assert ("# " + value)[2..] == value && ("# " + value)[..2] == "# ";
    case ChangedRecord(fields, path) =>
      FormsMatch(fields);
      EntryMatches("1 ", fields, ChangedFields, path);
      NotAHeader('1', " " + (PrintFields(fields) + path));
      assert "1 " + (PrintFields(fields) + path) == ['1'] + (" " + (PrintFields(fields) + path));
    case RenamedRecord(fields, path, oldPath) =>
      FormsMatch(fields);
      EntryMatches("2 ", fields, RenamedFields, path);
      NotAHeader('2', " " + (PrintFields(fields) + path));
      assert "2 " + (PrintFields(fields) + path) == ['2'] + (" " + (PrintFields(fields) + path));
      RenameTakesTwo(r, rest);
    case UnmergedRecord(fields, path) =>
      FormsMatch(fields);
      EntryMatches("u ", fields, UnmergedFields, path);
      NotAHeader('u', " " + (PrintFields(fields) + path));
      assert "u " + (PrintFields(fields) + path) == ['u'] + (" " + (PrintFields(fields) + path));
    case UntrackedRecord(path) =>
      NotAHeader('?', " " + path);
      assert "? " + path == ['?'] + (" " + path);
      assert ("? " + path)[2..] == path;
    case IgnoredRecord(path) =>
      NotAHeader('!', " " + path);
      assert "! " + path == ['!'] + (" " + path);
  }

  lemma NotAHeader(kind: char, rest: string)
    requires kind != '#'
    ensures !IsHeader([kind] + rest) && forall c :: HasKind([kind] + rest, c) <==> c == kind
  {
    assert ([kind] + rest)[0] == kind && "# "[0] == '#';
  }

  lemma RenameTakesTwo(r: Record, rest: seq<string>)
    requires r.RenamedRecord?
    ensures (RecordTokens(r) + rest)[0] == RecordTokens(r)[0] && (RecordTokens(r) + rest)[1] == r.oldPath
    ensures |RecordTokens(r) + rest| > 1
  {
  }

  lemma EntryMatches(prefix: string, fields: seq<string>, kinds: seq<FieldKind>, path: string)
    requires FieldsMatch(fields, kinds)
    ensures MatchEntry(prefix + (PrintFields(fields) + path), prefix, kinds) == Some((fields, path))
  {
    hide PrintFields, FieldsMatch, MatchFields;
    MatchPrinted(fields, kinds, path);
    assert (prefix + (PrintFields(fields) + path))[|prefix|..] == PrintFields(fields) + path;
    assert prefix <= prefix + (PrintFields(fields) + path);
  }

  lemma {:induction false} RecordsParse(records: seq<Record>)
    requires forall i :: 0 <= i < |records| ==> WellFormed(records[i])
    ensures ParseTokens(AllTokens(records) + [""]) == Success(AllItems(records))
    decreases |records|
  {
    hide WellFormed, RecordTokens, RecordItems, ParseFirst, ParseTokens;
    if records == [] {
      EmptyTokenParses();
    } else {
      var own, rest := RecordTokens(records[0]), AllTokens(records[1..]) + [""];
      RecordHasTokens(records[0]);
      RecordParses(records[0], rest);
      RecordsParse(records[1..]);
      assert AllTokens(records) + [""] == own + rest;
      ParseStep(own, rest, RecordItems(records[0]), AllItems(records[1..]));
    }
  }

  lemma RecordHasTokens(r: Record)
    ensures RecordTokens(r) != []
  {
  }

  lemma ParseStep(own: seq<string>, rest: seq<string>, items: seq<StatusItem>, more: seq<StatusItem>)
    requires own != [] && ParseFirst(own + rest) == Success((items, |own|))
    requires ParseTokens(rest) == Success(more)
    ensures ParseTokens(own + rest) == Success(items + more)
  {
    hide ParseFirst;
    assert (own + rest)[|own|..] == rest;
  }

  lemma EmptyTokenParses()
    ensures AllTokens([]) + [""] == [""]
    ensures ParseTokens([""]) == Success([])
  {
    assert ParseFirst([""]) == Success(([], 1));
    assert ParseTokens([""][1..]) == Success([]);
    var none: seq<StatusItem> := [];
    assert none + none == none;
  }

  /** Round trip: for every list of headers and entries, parsing what git prints gives back
      the same headers and entries in order, without the ignored ones. */
  lemma {:induction false} PrintedStatusParses(records: seq<Record>)
    requires forall i :: 0 <= i < |records| ==> WellFormed(records[i])
    ensures ParseTokens(Split(Print(records), '\0')) == Success(AllItems(records))
  {
    hide Split, ParseTokens, AllTokens, PrintTokens, WellFormed;
    AllTokensNulFree(records);
    SplitPrinted(AllTokens(records));
    RecordsParse(records);
  }

  // ---------------------------------------------------------------- every token

  predicate ChangedText(field: string, fields: seq<string>, path: string) {
    ChangedForm(fields) && field == "1 " + (PrintFields(fields) + path)
  }

  predicate RenamedText(field: string, fields: seq<string>, path: string) {
    RenamedForm(fields) && field == "2 " + (PrintFields(fields) + path)
  }

  predicate UnmergedText(field: string, fields: seq<string>, path: string) {
    UnmergedForm(fields) && field == "u " + (PrintFields(fields) + path)
  }

  lemma EntryMatchedIff(field: string, prefix: string, kinds: seq<FieldKind>, fields: seq<string>, path: string)
    ensures MatchEntry(field, prefix, kinds) == Some((fields, path)) <==>
            FieldsMatch(fields, kinds) && field == prefix + (PrintFields(fields) + path)
  {
    hide PrintFields, FieldsMatch, MatchFields;
    if MatchEntry(field, prefix, kinds) == Some((fields, path)) {
      MatchedIsPrinted(field[|prefix|..], kinds);
      assert field == prefix + field[|prefix|..];
    }
    if FieldsMatch(fields, kinds) && field == prefix + (PrintFields(fields) + path) {
      EntryMatches(prefix, fields, kinds, path);
    }
  }

  lemma TextMatchedIff(field: string, fields: seq<string>, path: string)
    ensures MatchEntry(field, "1 ", ChangedFields) == Some((fields, path)) <==> ChangedText(field, fields, path)
    ensures MatchEntry(field, "2 ", RenamedFields) == Some((fields, path)) <==> RenamedText(field, fields, path)
    ensures MatchEntry(field, "u ", UnmergedFields) == Some((fields, path)) <==> UnmergedText(field, fields, path)
  {
    hide PrintFields, FieldsMatch, MatchEntry, ChangedFields, RenamedFields, UnmergedFields, ChangedForm, RenamedForm, UnmergedForm;
    FormsMatch(fields);
    EntryMatchedIff(field, "1 ", ChangedFields, fields, path);
    EntryMatchedIff(field, "2 ", RenamedFields, fields, path);
    EntryMatchedIff(field, "u ", UnmergedFields, fields, path);
  }

  ghost predicate IsChanged(field: string) {
    exists fields, path :: ChangedText(field, fields, path)
  }

  ghost predicate IsRenamed(field: string) {
    exists fields, path :: RenamedText(field, fields, path)
  }

  ghost predicate IsUnmerged(field: string) {
    exists fields, path :: UnmergedText(field, fields, path)
  }

  /** An entry is accepted, as what it says, exactly when it is printed as documented; a
      renamed one also needs an old path, which is the next token. */
  lemma EntryParses(field: string, oldPath: Option<string>)
    ensures forall fields, path :: ChangedText(field, fields, path) ==>
              ParseChangedEntry(field) == Success(Entry(path, fields[0], fields[1], None))
    ensures !IsChanged(field) ==> ParseChangedEntry(field) == Failure(BadChangedEntry)
    ensures forall fields, path :: RenamedText(field, fields, path) ==>
              ParseRenamedOrCopiedEntry(field, oldPath) ==
              if oldPath == None || oldPath == Some("") then Failure(MissingOldPath)
              else Success(Entry(path, fields[0], fields[1], oldPath))
    ensures !IsRenamed(field) ==> ParseRenamedOrCopiedEntry(field, oldPath) == Failure(BadRenamedOrCopiedEntry)
    ensures forall fields, path :: UnmergedText(field, fields, path) ==>
              ParseUnmergedEntry(field) == Success(Entry(path, fields[0], fields[1], None))
    ensures !IsUnmerged(field) ==> ParseUnmergedEntry(field) == Failure(BadUnmergedEntry)
  {
    hide MatchEntry, ChangedText, RenamedText, UnmergedText, ChangedFields, RenamedFields, UnmergedFields;
    forall fields, path
      ensures MatchEntry(field, "1 ", ChangedFields) == Some((fields, path)) <==> ChangedText(field, fields, path)
      ensures MatchEntry(field, "2 ", RenamedFields) == Some((fields, path)) <==> RenamedText(field, fields, path)
      ensures MatchEntry(field, "u ", UnmergedFields) == Some((fields, path)) <==> UnmergedText(field, fields, path)
    {
      TextMatchedIff(field, fields, path);
    }
  }

  /** Every token is read, each with those before it taken off: nothing but an error ends the reading. */
  lemma TokensAreRead(tokens: seq<string>)
    requires tokens != []
    ensures ParseTokens([]) == Success([])
    ensures match ParseFirst(tokens)
            case Failure(e) => ParseTokens(tokens) == Failure(e)
            case Success((items, n)) =>
              ParseTokens(tokens) == ParseTokens(if n <= |tokens| then tokens[n..] else []).Map(rest => items + rest)
  {
    hide ParseFirst;
  }

  /** What the first token is read as, by its first characters: headers with some text, the
      four kinds of entries, of which a renamed one takes a second token, and nothing else. */
  lemma FirstIs(tokens: seq<string>)
    requires tokens != []
    ensures var field, r := tokens[0], ParseFirst(tokens);
            if "# " <= field && |field| > 2 then r == Success(([Header(field[2..])], 1))
            else if "1" <= field then r == ParseChangedEntry(field).Map(e => ([e], 1))
            else if "2" <= field then
              r == ParseRenamedOrCopiedEntry(field, if |tokens| > 1 then Some(tokens[1]) else None).Map(e => ([e], 2))
            else if "u" <= field then r == ParseUnmergedEntry(field).Map(e => ([e], 1))
            else if "?" <= field then r == Success(([Entry(if |field| <= 2 then "" else field[2..], "??", "????", None)], 1))
            else r == Success(([], 1))
  {
    hide ParseChangedEntry, ParseRenamedOrCopiedEntry, ParseUnmergedEntry;
  }
}
