/** Fetching the pull requests updated since a time, newest first, and stopping early
    (`fetchUpdatedPullRequests` in app/src/lib/api.ts). */
module UpdatedPullRequests {
  import opened Text
  import opened Paging

  datatype PullRequest = PullRequest(number: nat, updatedAt: int)

  predicate NewestFirst(prs: seq<PullRequest>) {
    forall i, j :: 0 <= i < j < |prs| ==> prs[i].updatedAt >= prs[j].updatedAt
  }

  /** After each page: give up at `maxResults` items, go on while the last item is newer. */
  function Proceed(since: int, maxResults: int): seq<PullRequest> -> Verdict {
    (results: seq<PullRequest>) =>
      if |results| >= maxResults then Abort(MaxResults)
      else if results != [] && results[|results| - 1].updatedAt > since then Continue
      else Stop
  }

  function UpdateOptions(fails: Path -> bool, since: int, maxResults: int): Options<PullRequest> {
    Options(10, true, fails, false, Proceed(since, maxResults))
  }

  function UpdatedSince(prs: seq<PullRequest>, since: int): seq<PullRequest> {
    if prs == [] then []
    else (if prs[0].updatedAt >= since then [prs[0]] else []) + UpdatedSince(prs[1..], since)
  }

  /** What the call returns for the collection a server holds. */
  function Updated(prs: seq<PullRequest>, fails: Path -> bool, since: int, maxResults: int): Result<seq<PullRequest>, FetchError> {
    var all :- FetchFrom(prs, FirstPath(10), UpdateOptions(fails, since, maxResults));
    Success(UpdatedSince(all, since))
  }

  method FetchUpdatedPullRequests(prs: seq<PullRequest>, fails: Path -> bool, since: int, maxResults: int := 320)
    returns (r: Result<seq<PullRequest>, FetchError>)
    ensures r == Updated(prs, fails, since, maxResults)
  {
    hide FetchFrom;
    var all := FetchAll(prs, UpdateOptions(fails, since, maxResults));
    if all.Failure? {
      return Failure(all.error);
    }
    return Success(UpdatedSince(all.value, since));
  }

  // ---------------------------------------------------------------- nothing is missed

  /** The strictly newer items, in order. */
  function Newer(prs: seq<PullRequest>, since: int): seq<PullRequest> {
    if prs == [] then []
    else (if prs[0].updatedAt > since then [prs[0]] else []) + Newer(prs[1..], since)
  }

  /** A fetch that does not fail stops at a point after which nothing is newer. */
  lemma {:induction false} StopsAfterNewer(prs: seq<PullRequest>, path: Path, fails: Path -> bool, since: int, maxResults: int)
    requires NewestFirst(prs) && ValidPath(path) && 0 <= Before(path) <= |prs|
    ensures var r := FetchFrom(prs, path, UpdateOptions(fails, since, maxResults));
            r.Success? ==>
              && r.value <= prs
              && forall i :: |r.value| <= i < |prs| ==> prs[i].updatedAt <= since
    decreases |prs| - Before(path)
  {
    var opts := UpdateOptions(fails, since, maxResults);
    var next := NextPath(opts, Serve(prs, path).link);
    NextPathFollows(prs, path, opts);
    if !fails(path) && next.Some? {
      var buf := prs[..ServedTo(|prs|, path)];
      if opts.proceed(buf) == Continue {
        StopsAfterNewer(prs, next.value, fails, since, maxResults);
      } else {
        assert buf != [] && buf[|buf| - 1] == prs[|buf| - 1];
      }
    }
  }

  lemma {:induction false} FiltersConcat(x: seq<PullRequest>, y: seq<PullRequest>, since: int)
    ensures Newer(x + y, since) == Newer(x, since) + Newer(y, since)
    ensures UpdatedSince(x + y, since) == UpdatedSince(x, since) + UpdatedSince(y, since)
  {
    if x == [] {
      assert x + y == y;
    } else {
      var newer := if x[0].updatedAt > since then [x[0]] else [];
      var updated := if x[0].updatedAt >= since then [x[0]] else [];
      assert (x + y)[1..] == x[1..] + y;
      assert Newer(x + y, since) == newer + Newer(x[1..] + y, since);
      assert UpdatedSince(x + y, since) == updated + UpdatedSince(x[1..] + y, since);
      FiltersConcat(x[1..], y, since);
      ConcatAssoc(newer, Newer(x[1..], since), Newer(y, since));
      ConcatAssoc(updated, UpdatedSince(x[1..], since), UpdatedSince(y, since));
    }
  }

  lemma {:induction false} NoneNewer(prs: seq<PullRequest>, since: int)
    requires forall i :: 0 <= i < |prs| ==> prs[i].updatedAt <= since
    ensures Newer(prs, since) == []
  {
    if prs != [] {
      NoneNewer(prs[1..], since);
    }
  }

  lemma {:induction false} NewerOfUpdated(prs: seq<PullRequest>, since: int)
    ensures Newer(UpdatedSince(prs, since), since) == Newer(prs, since)
    ensures forall pr :: pr in UpdatedSince(prs, since) ==> pr.updatedAt >= since
  {
    if prs != [] {
      NewerOfUpdated(prs[1..], since);
      var head := if prs[0].updatedAt >= since then [prs[0]] else [];
      FiltersConcat(head, UpdatedSince(prs[1..], since), since);
      NewerOne(prs[0], since);
    }
  }

  lemma NewerOne(pr: PullRequest, since: int)
    ensures Newer([pr], since) == if pr.updatedAt > since then [pr] else []
  {
    assert [pr][1..] == [];
  }

  /** Although it stops early, a call that does not throw returns exactly the newer pull
      requests, in order and each as often as it occurs, and nothing older than `since`:
      its newer items are all newer items, and it is the filter of a prefix. */
  lemma UpdatesAreComplete(prs: seq<PullRequest>, fails: Path -> bool, since: int, maxResults: int)
    requires NewestFirst(prs)
    ensures var r := Updated(prs, fails, since, maxResults);
            r.Success? ==>
              && Newer(r.value, since) == Newer(prs, since)
              && (forall pr :: pr in r.value ==> pr.updatedAt >= since)
              && exists k :: 0 <= k <= |prs| && r.value == UpdatedSince(prs[..k], since)
  {
    hide FetchFrom, Newer, UpdatedSince;
    var all := FetchFrom(prs, FirstPath(10), UpdateOptions(fails, since, maxResults));
    StopsAfterNewer(prs, FirstPath(10), fails, since, maxResults);
    if all.Success? {
      var k := |all.value|;
      assert prs[..k] == all.value;
      assert prs == prs[..k] + prs[k..];
      FiltersConcat(prs[..k], prs[k..], since);
      NoneNewer(prs[k..], since);
      assert Newer(prs[..k], since) + [] == Newer(prs[..k], since);
      NewerOfUpdated(prs[..k], since);
    }
  }

  // ---------------------------------------------------------------- when it throws

  /** How many items have been received after request `n`, counted from 0, as the table in
      the documentation lists them. */
  function Received(n: nat): nat {
    if n < 5 then [10, 20, 40, 80, 160][n]
    else if n < 8 then 80 * (n - 2)
    else 100 * (n - 3)
  }

  function RequestAt(n: nat): Path {
    if n == 0 then FirstPath(10)
    else if n < 4 then Path(Some([10, 20, 40][n - 1]), Some(2))
    else if n < 8 then Path(Some(80), Some(n - 2))
    else Path(Some(100), Some(n - 3))
  }

  lemma RequestsAreAsListed(prs: seq<PullRequest>, n: nat, opts: Options<PullRequest>)
    requires opts.growing
    ensures var path := RequestAt(n);
            && ValidPath(path) && Before(path) == (if n == 0 then 0 else Received(n - 1))
            && Before(path) + path.perPage.value == Received(n)
            && (Received(n) < |prs| ==> NextPath(opts, Serve(prs, path).link) == Some(RequestAt(n + 1)))
  {
  }

  lemma ReceivedGrows(i: nat, j: nat)
    requires i <= j
    ensures 10 <= Received(i) <= Received(j) && (i < j ==> Received(i) < Received(j))
  {
  }

  /** After request `n` there are more items although too many were received, and the
      request was made because the items before it were all newer. */
  predicate ThrowsAfter(prs: seq<PullRequest>, since: int, maxResults: int, first: nat, n: nat) {
    && first <= n && maxResults <= Received(n) < |prs|
    && (n == first || (Received(n - 1) <= |prs| && prs[Received(n - 1) - 1].updatedAt > since))
  }

  ghost predicate Throws(prs: seq<PullRequest>, since: int, maxResults: int, first: nat) {
    exists n: nat :: ThrowsAfter(prs, since, maxResults, first, n)
  }

  lemma {:induction false} ThrowsFrom(prs: seq<PullRequest>, first: nat, fails: Path -> bool, since: int, maxResults: int)
    requires NewestFirst(prs) && forall p :: !fails(p)
    requires first > 0 ==> Received(first - 1) <= |prs|
    ensures ValidPath(RequestAt(first)) && 0 <= Before(RequestAt(first)) <= |prs|
    ensures FetchFrom(prs, RequestAt(first), UpdateOptions(fails, since, maxResults)).Failure? <==>
            Throws(prs, since, maxResults, first)
    decreases if first == 0 then |prs| + 1 else |prs| - Received(first - 1)
  {
    hide RequestAt, Received, NextPath, Serve;
    var opts := UpdateOptions(fails, since, maxResults);
    RequestsAreAsListed(prs, first, opts);
    RequestsAreAsListed(prs, first + 1, opts);
    var path := RequestAt(first);
    NextPathFollows(prs, path, opts);
    var here := Received(first);
    if here >= |prs| {
      forall n: nat | first <= n
        ensures !ThrowsAfter(prs, since, maxResults, first, n)
      {
        ReceivedGrows(first, n);
      }
    } else if here >= maxResults {
      assert ThrowsAfter(prs, since, maxResults, first, first);
    } else {
      ReceivedGrows(0, first);
      var buf := prs[..here];
      assert ServedTo(|prs|, path) == here && buf[|buf| - 1] == prs[here - 1];
      if prs[here - 1].updatedAt > since {
        if first > 0 {
          ReceivedGrows(first - 1, first);
        }
        ThrowsFrom(prs, first + 1, fails, since, maxResults);
        ThrowsLater(prs, since, maxResults, first);
      } else {
        forall n: nat | first <= n
          ensures !ThrowsAfter(prs, since, maxResults, first, n)
        {
          ReceivedGrows(first, n);
          if n > first {
            ReceivedGrows(first, n - 1);
            ReceivedGrows(n - 1, n);
          }
        }
      }
    }
  }

  lemma ThrowsLater(prs: seq<PullRequest>, since: int, maxResults: int, first: nat)
    requires Received(first) < |prs| && Received(first) < maxResults && Received(first) > 0
    requires prs[Received(first) - 1].updatedAt > since
    ensures Throws(prs, since, maxResults, first) <==> Throws(prs, since, maxResults, first + 1)
  {
    hide Received;
    if Throws(prs, since, maxResults, first) {
      var n: nat :| ThrowsAfter(prs, since, maxResults, first, n);
      assert ThrowsAfter(prs, since, maxResults, first + 1, n);
    }
    if Throws(prs, since, maxResults, first + 1) {
      var n: nat :| ThrowsAfter(prs, since, maxResults, first + 1, n);
      assert ThrowsAfter(prs, since, maxResults, first, n);
    }
  }

  /** For every limit: when no request fails, the call throws exactly when some request
      leaves it at or over the limit with items still to come, and it made that request
      because everything before it was newer. */
  lemma ThrowsIff(prs: seq<PullRequest>, fails: Path -> bool, since: int, maxResults: int)
    requires NewestFirst(prs) && forall p :: !fails(p)
    ensures Updated(prs, fails, since, maxResults).Failure? <==> Throws(prs, since, maxResults, 0)
  {
    hide FetchFrom, Received;
    ThrowsFrom(prs, 0, fails, since, maxResults);
  }

  /** With the default limit of 320 the call throws exactly when there are more than 320
      items and the first 240 are newer; so always when more than 320 are newer. */
  lemma DefaultLimitThrowsIff(prs: seq<PullRequest>, fails: Path -> bool, since: int)
    requires NewestFirst(prs) && forall p :: !fails(p)
    ensures Updated(prs, fails, since, 320).Failure? <==> |prs| > 320 && prs[239].updatedAt > since
    ensures |Newer(prs, since)| > 320 ==> Updated(prs, fails, since, 320).Failure?
  {
    hide Updated;
    ThrowsIff(prs, fails, since, 320);
    if Throws(prs, since, 320, 0) {
      var n: nat :| ThrowsAfter(prs, since, 320, 0, n);
      if n < 6 {
        ReceivedGrows(n, 5);
      } else {
        ReceivedGrows(6, n);
        ReceivedGrows(5, n - 1);
      }
    }
    if |prs| > 320 && prs[239].updatedAt > since {
      assert ThrowsAfter(prs, since, 320, 0, 6);
    }
    if |Newer(prs, since)| > 320 {
      NewerArePrefix(prs, since, 239);
    }
  }

  /** In a collection sorted newest first, if more than `k` items are newer then item `k` is. */
  lemma {:induction false} NewerArePrefix(prs: seq<PullRequest>, since: int, k: nat)
    requires NewestFirst(prs) && |Newer(prs, since)| > k
    ensures |prs| >= |Newer(prs, since)| && prs[k].updatedAt > since
  {
    NewerIsShorter(prs, since);
    if prs[k].updatedAt <= since {
      assert prs == prs[..k] + prs[k..];
      assert Newer(prs[..k], since) + [] == Newer(prs[..k], since);
      NoneNewer(prs[k..], since);
      NewerIsShorter(prs[..k], since);
      FiltersConcat(prs[..k], prs[k..], since);
    }
  }

  lemma {:induction false} NewerIsShorter(prs: seq<PullRequest>, since: int)
    ensures |Newer(prs, since)| <= |prs|
  {
    if prs != [] {
      NewerIsShorter(prs[1..], since);
    }
  }

  /** For another limit the documented promise can fail: six newer items are more than five,
      but they come on one page, after which the limit is not looked at. */
  lemma {:induction false} OtherLimitsMayNotThrow(fails: Path -> bool) returns (prs: seq<PullRequest>)
    requires forall p :: !fails(p)
    ensures NewestFirst(prs) && |Newer(prs, 0)| > 5
    ensures Updated(prs, fails, 0, 5).Success?
  {
    prs := seq(6, i requires 0 <= i < 6 => PullRequest(i + 1, 1));
    AllNewer(prs, 0);
    ThrowsIff(prs, fails, 0, 5);
    forall n: nat
      ensures !ThrowsAfter(prs, 0, 5, 0, n)
    {
      ReceivedGrows(0, n);
    }
  }

  lemma {:induction false} AllNewer(prs: seq<PullRequest>, since: int)
    requires forall i :: 0 <= i < |prs| ==> prs[i].updatedAt > since
    ensures |Newer(prs, since)| == |prs|
  {
    if prs != [] {
      AllNewer(prs[1..], since);
    }
  }

  // ---------------------------------------------------------------- at the time itself

  /** Request `m` is the last: it ends the collection, or its last item is not newer; and
      the request before it did neither. */
  predicate LastRequest(prs: seq<PullRequest>, since: int, first: nat, m: nat) {
    && first <= m
    && (|prs| <= Received(m) || (Received(m) > 0 && prs[Received(m) - 1].updatedAt <= since))
    && (m > first ==> 0 < Received(m - 1) < |prs| && prs[Received(m - 1) - 1].updatedAt > since)
  }

  /** A fetch that does not fail returns what its last request completes. */
  lemma {:induction false} SuccessEnds(prs: seq<PullRequest>, first: nat, fails: Path -> bool, since: int, maxResults: int)
    returns (m: nat)
    requires ValidPath(RequestAt(first)) && 0 <= Before(RequestAt(first)) <= |prs|
    requires FetchFrom(prs, RequestAt(first), UpdateOptions(fails, since, maxResults)).Success?
    ensures LastRequest(prs, since, first, m)
    ensures FetchFrom(prs, RequestAt(first), UpdateOptions(fails, since, maxResults)) ==
            Success(prs[..Min(Received(m), |prs|)])
    decreases |prs| - Before(RequestAt(first))
  {
    hide RequestAt, Received, NextPath, Serve;
    var opts := UpdateOptions(fails, since, maxResults);
    RequestsAreAsListed(prs, first, opts);
    RequestsAreAsListed(prs, first + 1, opts);
    NextPathFollows(prs, RequestAt(first), opts);
    ReceivedGrows(0, first);
    var buf := prs[..Min(Received(first), |prs|)];
    m := first;
    if |buf| < |prs| {
      assert buf[|buf| - 1] == prs[Received(first) - 1];
      if prs[Received(first) - 1].updatedAt > since {
        m := SuccessEnds(prs, first + 1, fails, since, maxResults);
      }
    }
  }

  /** Items updated exactly at `since` lie on both sides of the end of the first page that
      does not end with a newer item. */
  predicate CutAfter(prs: seq<PullRequest>, since: int, n: nat) {
    && 0 < Received(n) < |prs|
    && prs[Received(n) - 1].updatedAt == since == prs[Received(n)].updatedAt
    && (n > 0 ==> 0 < Received(n - 1) < |prs| && prs[Received(n - 1) - 1].updatedAt > since)
  }

  ghost predicate Cut(prs: seq<PullRequest>, since: int) {
    exists n: nat :: CutAfter(prs, since, n)
  }

  /** A cut can only be at the last request. */
  lemma CutIsLast(prs: seq<PullRequest>, since: int, m: nat, n: nat)
    requires NewestFirst(prs) && LastRequest(prs, since, 0, m) && CutAfter(prs, since, n)
    ensures n == m
  {
    hide Received;
    if m < n {
      ReceivedGrows(m, n - 1);
    } else if n < m {
      ReceivedGrows(n, m - 1);
    }
  }

  /** For every limit: a call that does not throw returns every item updated at or after
      `since` exactly when no page boundary cuts through those updated exactly at it. */
  lemma OnOrAfterIff(prs: seq<PullRequest>, fails: Path -> bool, since: int, maxResults: int)
    requires NewestFirst(prs) && Updated(prs, fails, since, maxResults).Success?
    ensures Updated(prs, fails, since, maxResults).value == UpdatedSince(prs, since) <==> !Cut(prs, since)
  {
    hide FetchFrom, Received, RequestAt, UpdatedSince, NewestFirst, LastRequest;
    FirstIsListed();
    var m := SuccessEnds(prs, 0, fails, since, maxResults);
    ReceivedGrows(0, m);
    PrefixHasAllIff(prs, Min(Received(m), |prs|), since);
    CutIff(prs, since, m);
  }

  lemma CutIff(prs: seq<PullRequest>, since: int, m: nat)
    requires NewestFirst(prs) && LastRequest(prs, since, 0, m) && Received(m) > 0
    ensures Cut(prs, since) <==> Received(m) < |prs| && prs[Received(m)].updatedAt >= since
  {
    hide Received;
    var k := Received(m);
    if k < |prs| && prs[k].updatedAt >= since {
      assert prs[k - 1].updatedAt >= prs[k].updatedAt;
      assert CutAfter(prs, since, m);
    }
    if Cut(prs, since) {
      var n: nat :| CutAfter(prs, since, n);
      CutIsLast(prs, since, m, n);
    }
  }

  lemma PrefixHasAllIff(prs: seq<PullRequest>, k: nat, since: int)
    requires NewestFirst(prs) && k <= |prs|
    ensures UpdatedSince(prs[..k], since) == UpdatedSince(prs, since) <==> k == |prs| || prs[k].updatedAt < since
  {
    hide UpdatedSince, Newer;
    assert prs == prs[..k] + prs[k..];
    FiltersConcat(prs[..k], prs[k..], since);
    NoneLeftIff(prs[k..], since);
  }

  lemma FirstIsListed()
    ensures RequestAt(0) == FirstPath(10) && ValidPath(RequestAt(0)) && Before(RequestAt(0)) == 0
  {
  }

  lemma NoneLeftIff(prs: seq<PullRequest>, since: int)
    requires NewestFirst(prs)
    ensures UpdatedSince(prs, since) == [] <==> prs == [] || prs[0].updatedAt < since
  {
    if prs != [] && prs[0].updatedAt < since {
      NoneSince(prs, since);
    }
  }

  lemma {:induction false} NoneSince(prs: seq<PullRequest>, since: int)
    requires forall i :: 0 <= i < |prs| ==> prs[i].updatedAt < since
    ensures UpdatedSince(prs, since) == []
  {
    if prs != [] {
      NoneSince(prs[1..], since);
    }
  }

  /** More than 320 pull requests updated exactly at `since`: with the default limit the
      call neither throws nor returns more than the first page of them. */
  lemma {:induction false} UpdatedAtSinceAreCut(fails: Path -> bool, since: int) returns (prs: seq<PullRequest>)
    requires forall p :: !fails(p)
    ensures NewestFirst(prs) && |prs| == 321 && UpdatedSince(prs, since) == prs
    ensures Updated(prs, fails, since, 320) == Success(prs[..10])
  {
    hide FetchFrom, Received, RequestAt, UpdatedSince;
    prs := seq(321, i requires 0 <= i < 321 => PullRequest(i + 1, since));
    DefaultLimitThrowsIff(prs, fails, since);
    FirstIsListed();
    var m := SuccessEnds(prs, 0, fails, since, 320);
    FirstReceived();
    assert m == 0;
    AllSince(prs, since);
    AllSince(prs[..10], since);
  }

  lemma FirstReceived()
    ensures Received(0) == 10
    ensures forall n: nat :: n > 0 ==> Received(n) > 0
  {
  }

  lemma {:induction false} AllSince(prs: seq<PullRequest>, since: int)
    requires forall i :: 0 <= i < |prs| ==> prs[i].updatedAt >= since
    ensures UpdatedSince(prs, since) == prs
  {
    if prs != [] {
      AllSince(prs[1..], since);
    }
  }
}
