/** Fetching all items of a paginated resource with growing pages (app/src/lib/api.ts). */
module Paging {
  import opened Text

  // ---------------------------------------------------------------- pages

  /** The numbers in the query of a page's path; None when missing or not a number. */
  datatype Path = Path(perPage: Option<int>, page: Option<int>)

  /** `getNextPagePathWithIncreasingPageSize`, given the path the Link header names. */
  function NextPathWithIncreasingPageSize(link: Option<Path>): Option<Path> {
    if link.None? then None
    else
      var pageSize, pageNumber := link.value.perPage.GetOr(0), link.value.page.GetOr(0);
      if pageSize == 0 || pageNumber == 0 then link
      else
        var currentPage := pageNumber - 1;
        var received := currentPage * pageSize;
        var nextPageSize := if pageSize * 2 < 100 then pageSize * 2 else 100;
        if pageSize != nextPageSize && received % nextPageSize == 0
        then Some(Path(Some(nextPageSize), Some(received / nextPageSize + 1)))
        else link
  }

  /** The items before the page a path asks for; the first page is the default. */
  function Before(path: Path): int {
    (path.page.GetOr(1) - 1) * path.perPage.GetOr(0)
  }

  /** A path that asks for a page of some size, of which there is a next or not. */
  predicate ValidPath(path: Path) {
    path.perPage.Some? && path.perPage.value >= 1 && path.page.GetOr(1) >= 1
  }

  function Min(a: int, b: int): int {
    if a < b then a else b
  }

  datatype Response<T> = Response(page: seq<T>, link: Option<Path>)

  /** How much of a collection of `total` items has been served up to and with this page. */
  function ServedTo(total: nat, path: Path): int
    requires ValidPath(path)
  {
    Min(Before(path) + path.perPage.value, total)
  }

  /** A server that pages a collection: the items of the page, and a link while there are more. */
  function Serve<T>(items: seq<T>, path: Path): Response<T>
    requires ValidPath(path) && 0 <= Before(path) <= |items|
  {
    Response(items[Before(path)..ServedTo(|items|, path)],
             if Before(path) + path.perPage.value < |items|
             then Some(Path(path.perPage, Some(path.page.GetOr(1) + 1))) else None)
  }

  /** The next path asks for exactly the item after those received, whatever the size
      becomes; a size in 1..100 never falls and never passes 100. The size doubles, up to 100,
      exactly when the items received are a whole number of pages of the new size. */
  lemma NextPageFollows(path: Path)
    requires ValidPath(path)
    ensures var size := path.perPage.value;
            var next := NextPathWithIncreasingPageSize(Some(Path(path.perPage, Some(path.page.GetOr(1) + 1))));
            && next.Some? && ValidPath(next.value)
            && Before(next.value) == Before(path) + size
            && (size <= 100 ==> size <= next.value.perPage.value <= 100)
            && next.value.perPage.value ==
               if (Before(path) + size) % Min(2 * size, 100) == 0 then Min(2 * size, 100) else size
  {
    var size, page := path.perPage.value, path.page.GetOr(1);
    var received := page * size;
    var nextSize := if size * 2 < 100 then size * 2 else 100;
    OneMorePage(page, size);
    assert received >= 0 by {
      Product(page, size);
    }
    if size != nextSize && received % nextSize == 0 {
      RebasedPage(received, nextSize);
    }
  }

  /** A link that names no page size or no page, or zero, is followed as it is. */
  lemma UnreadableLinkIsKept(link: Path)
    requires link.perPage.GetOr(0) == 0 || link.page.GetOr(0) == 0
    ensures NextPathWithIncreasingPageSize(Some(link)) == Some(link)
  {
  }

  /** What a whole number of pages holds comes before the page after them. */
  lemma RebasedPage(received: nat, size: int)
    requires size >= 1 && received % size == 0
    ensures var page := received / size + 1; page >= 1 && (page - 1) * size == received
  {
    var pages := received / size;
    assert received == size * pages + received % size;
    assert size * pages == pages * size;
  }

  lemma Product(a: nat, b: nat)
    ensures a * b >= 0
  {
  }

  // ---------------------------------------------------------------- fetching all pages

  datatype FetchError = RequestFailed | MaxResults

  datatype Verdict = Continue | Stop | Abort(error: FetchError)

  /** How items are fetched: the first page size, whether the size grows, which requests
      fail, whether failures are suppressed, and what to do after each page. */
  datatype Options<!T> = Options(
    perPage: int,
    growing: bool,
    fails: Path -> bool,
    suppressErrors: bool,
    proceed: seq<T> -> Verdict)

  function NextPath<T>(opts: Options<T>, link: Option<Path>): Option<Path> {
    if opts.growing then NextPathWithIncreasingPageSize(link) else link
  }

  lemma NextPathFollows<T>(items: seq<T>, path: Path, opts: Options<T>)
    requires ValidPath(path) && 0 <= Before(path) <= |items|
    ensures var next := NextPath(opts, Serve(items, path).link);
            && (next.Some? <==> Before(path) + path.perPage.value < |items|)
            && (next.Some? ==> ValidPath(next.value) && Before(next.value) == ServedTo(|items|, path) < |items|)
  {
    hide NextPathWithIncreasingPageSize;
    NextPageFollows(path);
    NoLinkNoNext();
    OneMorePage(path.page.GetOr(1), path.perPage.value);
  }

  lemma NoLinkNoNext()
    ensures NextPathWithIncreasingPageSize(None) == None
  {
  }

  lemma OneMorePage(page: int, size: int)
    ensures (page + 1 - 1) * size == (page - 1) * size + size
  {
  }

  /** What fetching from a path on returns, when the items before its page are in the buffer. */
  function FetchFrom<T>(items: seq<T>, path: Path, opts: Options<T>): Result<seq<T>, FetchError>
    requires ValidPath(path) && 0 <= Before(path) <= |items|
    decreases |items| - Before(path)
  {
    if opts.fails(path) then
      if opts.suppressErrors then Success(items[..Before(path)]) else Failure(RequestFailed)
    else
      var buf := items[..ServedTo(|items|, path)];
      var next := NextPath(opts, Serve(items, path).link);
      NextPathFollows(items, path, opts);
      if next.None? then Success(buf)
      else
        match opts.proceed(buf)
        case Abort(error) => Failure(error)
        case Stop => Success(buf)
        case Continue => FetchFrom(items, next.value, opts)
  }

  function FirstPath(perPage: int): Path {
    Path(Some(perPage), None)
  }

  method FetchAll<T>(items: seq<T>, opts: Options<T>) returns (r: Result<seq<T>, FetchError>)
    requires opts.perPage >= 1
    ensures r == FetchFrom(items, FirstPath(opts.perPage), opts)
  {
    var buf: seq<T> := [];
    var nextPath := Some(FirstPath(opts.perPage));
    var more := true;
    while more
      invariant nextPath.Some? ==> ValidPath(nextPath.value) && 0 <= Before(nextPath.value) <= |items|
      invariant more ==> nextPath.Some? && buf == items[..Before(nextPath.value)]
      invariant more ==> FetchFrom(items, nextPath.value, opts) == FetchFrom(items, FirstPath(opts.perPage), opts)
      invariant !more ==> FetchFrom(items, FirstPath(opts.perPage), opts) == Success(buf)
      decreases more, if nextPath.Some? then |items| - Before(nextPath.value) else 0
    {
      var path := nextPath.value;
      if opts.fails(path) {
        if opts.suppressErrors {
          return Success(buf);
        }
        return Failure(RequestFailed);
      }
      var response := Serve(items, path);
      NextPathFollows(items, path, opts);
      assert items[..Before(path)] + items[Before(path)..ServedTo(|items|, path)] == items[..ServedTo(|items|, path)];
      buf := buf + response.page;
      nextPath := NextPath(opts, response.link);
      if nextPath.None? {
        more := false;
      } else {
        var verdict := opts.proceed(buf);
        if verdict.Abort? {
          return Failure(verdict.error);
        }
        more := verdict == Continue;
      }
    }
    r := Success(buf);
  }

  /** However pages grow, fetching returns a prefix of the collection, whose length is that
      of the whole collection unless a request failed or the caller stopped it. */
  lemma {:induction false} FetchesPrefix<T>(items: seq<T>, path: Path, opts: Options<T>)
    requires ValidPath(path) && 0 <= Before(path) <= |items|
    ensures var r := FetchFrom(items, path, opts); r.Success? ==> r.value <= items
    ensures (forall p :: !opts.fails(p)) && (forall buf :: opts.proceed(buf) == Continue) ==>
              FetchFrom(items, path, opts) == Success(items)
    decreases |items| - Before(path)
  {
    var next := NextPath(opts, Serve(items, path).link);
    NextPathFollows(items, path, opts);
    if next.Some? {
      FetchesPrefix(items, next.value, opts);
    } else {
      assert items[..|items|] == items;
    }
  }

  // ---------------------------------------------------------------- growth

  function Pow2(n: nat): nat {
    if n == 0 then 1 else 2 * Pow2(n - 1)
  }

  /** The path of request `n`, counted from 0, on a collection that is long enough. */
  function RequestPath(growing: bool, perPage: int, n: nat): Path
    requires perPage >= 1
    ensures ValidPath(RequestPath(growing, perPage, n))
  {
    if n == 0 then FirstPath(perPage)
    else
      var last := RequestPath(growing, perPage, n - 1);
      var link := Path(last.perPage, Some(last.page.GetOr(1) + 1));
      NextPageFollows(last);
      if growing then NextPathWithIncreasingPageSize(Some(link)).value else link
  }

  /** How many items the first `n + 1` requests deliver from a collection that is long enough. */
  function Delivered(growing: bool, perPage: int, n: nat): int
    requires perPage >= 1
  {
    var path := RequestPath(growing, perPage, n);
    Before(path) + path.perPage.value
  }

  lemma {:induction false} DeliveredGrows(growing: bool, perPage: int, n: nat)
    requires perPage >= 1
    ensures Before(RequestPath(growing, perPage, n)) == if n == 0 then 0 else Delivered(growing, perPage, n - 1)
    ensures n <= Before(RequestPath(growing, perPage, n)) < Delivered(growing, perPage, n)
  {
    hide NextPathWithIncreasingPageSize;
    if n > 0 {
      DeliveredGrows(growing, perPage, n - 1);
      var last := RequestPath(growing, perPage, n - 1);
      NextPageFollows(last);
      OneMorePage(last.page.GetOr(1), last.perPage.value);
    }
  }

  /** On every collection: as long as items are left after request `n`, the server's answer
      to it leads to request `n + 1`, which asks for the items that follow. */
  lemma RequestsFollow<T>(items: seq<T>, n: nat, opts: Options<T>)
    requires opts.perPage >= 1 && Delivered(opts.growing, opts.perPage, n) < |items|
    ensures var path, next := RequestPath(opts.growing, opts.perPage, n), RequestPath(opts.growing, opts.perPage, n + 1);
            && 0 <= Before(path) <= |items|
            && NextPath(opts, Serve(items, path).link) == Some(next)
            && Before(next) == ServedTo(|items|, path) == Delivered(opts.growing, opts.perPage, n)
  {
    hide NextPathWithIncreasingPageSize;
    DeliveredGrows(opts.growing, opts.perPage, n);
    DeliveredGrows(opts.growing, opts.perPage, n + 1);
    NextPageFollows(RequestPath(opts.growing, opts.perPage, n));
  }

  /** Request `n` succeeds, leaves items to fetch, and the caller wants them. */
  predicate GoesOn<T(==)>(items: seq<T>, opts: Options<T>, n: nat)
    requires opts.perPage >= 1
  {
    && !opts.fails(RequestPath(opts.growing, opts.perPage, n))
    && 0 <= Delivered(opts.growing, opts.perPage, n) < |items|
    && opts.proceed(items[..Delivered(opts.growing, opts.perPage, n)]) == Continue
  }

  /** After `n` requests that go on, fetching stands at request `n`, with everything before
      it in the buffer. */
  lemma {:induction false} FetchReaches<T>(items: seq<T>, opts: Options<T>, n: nat)
    requires opts.perPage >= 1
    requires forall k :: 0 <= k < n ==> GoesOn(items, opts, k)
    ensures var path := RequestPath(opts.growing, opts.perPage, n);
            0 <= Before(path) <= |items| && FetchFrom(items, FirstPath(opts.perPage), opts) == FetchFrom(items, path, opts)
  {
    hide NextPathWithIncreasingPageSize, RequestPath, NextPath, Serve;
    if n == 0 {
      FirstRequest(opts.growing, opts.perPage);
    } else {
      assert GoesOn(items, opts, n - 1);
      FetchReaches(items, opts, n - 1);
      RequestsFollow(items, n - 1, opts);
    }
  }

  lemma FirstRequest(growing: bool, perPage: int)
    requires perPage >= 1
    ensures RequestPath(growing, perPage, 0) == FirstPath(perPage) && Before(FirstPath(perPage)) == 0
  {
  }

  /** Some request is the first that does not go on. */
  lemma {:induction false} SomeRequestIsLast<T>(items: seq<T>, opts: Options<T>, from: nat) returns (n: nat)
    requires opts.perPage >= 1 && from <= |items|
    requires forall k :: 0 <= k < from ==> GoesOn(items, opts, k)
    ensures (forall k :: 0 <= k < n ==> GoesOn(items, opts, k)) && !GoesOn(items, opts, n)
    decreases |items| - from
  {
    hide RequestPath, Delivered;
    DeliveredGrows(opts.growing, opts.perPage, from);
    if GoesOn(items, opts, from) {
      n := SomeRequestIsLast(items, opts, from + 1);
    } else {
      n := from;
    }
  }

  /** How fetching ends at the first request that does not go on. When it fails, suppressing
      errors gives everything that was received before, and otherwise it is an error. When it
      leaves nothing to fetch, all items are returned; when the caller stops, everything
      received so far; when the caller gives up, it is the caller's error. */
  lemma FetchEnds<T>(items: seq<T>, opts: Options<T>, n: nat)
    requires opts.perPage >= 1
    requires (forall k :: 0 <= k < n ==> GoesOn(items, opts, k)) && !GoesOn(items, opts, n)
    ensures var before := if n == 0 then 0 else Delivered(opts.growing, opts.perPage, n - 1);
            var received := Delivered(opts.growing, opts.perPage, n);
            var r := FetchFrom(items, FirstPath(opts.perPage), opts);
            && 0 <= before <= |items| && before < received
            && if opts.fails(RequestPath(opts.growing, opts.perPage, n))
               then r == if opts.suppressErrors then Success(items[..before]) else Failure(RequestFailed)
               else if received >= |items| then r == Success(items)
               else
                 match opts.proceed(items[..received])
                 case Stop => r == Success(items[..received])
                 case Abort(error) => r == Failure(error)
                 case Continue => false
  {
    hide NextPathWithIncreasingPageSize, RequestPath, NextPath, Serve;
    var path := RequestPath(opts.growing, opts.perPage, n);
    FetchReaches(items, opts, n);
    DeliveredGrows(opts.growing, opts.perPage, n);
    NextPathFollows(items, path, opts);
    assert items[..|items|] == items;
  }

  /** While doubling stays within 100, request `n` is the second page of half the items
      delivered with it. */
  lemma {:induction false} RequestsDouble(perPage: int, n: nat)
    requires 1 <= perPage <= 100 && n >= 1 && perPage * Pow2(n) <= 100
    ensures RequestPath(true, perPage, n) == Path(Some(perPage * Pow2(n - 1)), Some(2))
  {
    hide NextPathWithIncreasingPageSize, Pow2, RequestPath;
    NextRequest(perPage, n - 1);
    if n == 1 {
      FirstRequest(true, perPage);
      PowZero(perPage);
      Doubled(perPage, 1);
      SecondRequest(perPage);
    } else {
      Doubled(perPage, n);
      Doubled(perPage, n - 1);
      RequestsDouble(perPage, n - 1);
      LaterRequest(perPage * Pow2(n - 2));
    }
  }

  lemma NextRequest(perPage: int, n: nat)
    requires perPage >= 1
    ensures var last := RequestPath(true, perPage, n);
            NextPathWithIncreasingPageSize(Some(Path(last.perPage, Some(last.page.GetOr(1) + 1)))) ==
            Some(RequestPath(true, perPage, n + 1))
  {
    hide NextPathWithIncreasingPageSize;
    NextPageFollows(RequestPath(true, perPage, n));
  }

  lemma Doubled(perPage: int, n: nat)
    requires n >= 1 && perPage >= 1
    ensures perPage * Pow2(n) == 2 * (perPage * Pow2(n - 1))
    ensures perPage * Pow2(n - 1) >= 1
  {
    PowPositive(n - 1);
  }

  lemma {:induction false} PowPositive(n: nat)
    ensures Pow2(n) >= 1
  {
    if n > 0 {
      PowPositive(n - 1);
    }
  }

  lemma PowZero(perPage: int)
    ensures perPage * Pow2(0) == perPage
  {
  }

  lemma SecondRequest(size: int)
    requires 1 <= size && 2 * size <= 100
    ensures NextPathWithIncreasingPageSize(Some(Path(Some(size), Some(2)))) == Some(Path(Some(size), Some(2)))
  {
    assert size % (2 * size) == size;
  }

  lemma LaterRequest(size: int)
    requires 1 <= size && 2 * size <= 100
    ensures NextPathWithIncreasingPageSize(Some(Path(Some(size), Some(3)))) == Some(Path(Some(2 * size), Some(2)))
  {
    DivisibleBySelf(2 * size);
  }

  lemma DivisibleBySelf(m: int)
    requires m >= 1
    ensures m % m == 0 && m / m == 1
  {
  }

  /** From a start size within 1..100, the first `j + 1` requests deliver `2^j` times the
      start size as long as that is at most 100. */
  lemma DeliveryDoubles(perPage: int, j: nat)
    requires 1 <= perPage <= 100 && perPage * Pow2(j) <= 100
    ensures Delivered(true, perPage, j) == perPage * Pow2(j)
  {
    hide NextPathWithIncreasingPageSize, Pow2;
    if j == 0 {
      PowZero(perPage);
    } else {
      RequestsDouble(perPage, j);
      Doubled(perPage, j);
    }
  }

  /** Fetching with growing pages from a size within 1..100: when the `j` requests before it
      went on, and request `j` succeeds, the buffer is then the first `2^j` times the start
      size items. This is what the caller is asked about, and what is returned when it
      stops, or when these are all items. */
  lemma BufferDoubles<T>(items: seq<T>, opts: Options<T>, j: nat)
    requires opts.growing && 1 <= opts.perPage <= 100
    requires opts.perPage * Pow2(j) <= 100 && opts.perPage * Pow2(j) <= |items|
    requires forall k :: 0 <= k < j ==> GoesOn(items, opts, k)
    requires !opts.fails(RequestPath(true, opts.perPage, j))
    ensures 0 <= opts.perPage * Pow2(j)
    ensures var buf := items[..opts.perPage * Pow2(j)];
            var next := RequestPath(true, opts.perPage, j + 1);
            if buf == items then FetchFrom(items, FirstPath(opts.perPage), opts) == Success(items)
            else
              && Before(next) == |buf| < |items|
              && FetchFrom(items, FirstPath(opts.perPage), opts) ==
                 match opts.proceed(buf)
                 case Abort(error) => Failure(error)
                 case Stop => Success(buf)
                 case Continue => FetchFrom(items, next, opts)
  {
    hide NextPathWithIncreasingPageSize, RequestPath, Pow2, NextPath, Serve;
    var path := RequestPath(true, opts.perPage, j);
    FetchReaches(items, opts, j);
    DeliveryDoubles(opts.perPage, j);
    DeliveredGrows(true, opts.perPage, j);
    NextPathFollows(items, path, opts);
    var buf := items[..opts.perPage * Pow2(j)];
    if |buf| < |items| {
      RequestsFollow(items, j, opts);
      assert buf != items;
    } else {
      assert buf == items;
    }
  }

  lemma {:induction false} SmallerPowers(perPage: int, k: nat, j: nat)
    requires perPage >= 1 && k < j
    ensures perPage * Pow2(k) < perPage * Pow2(j)
    decreases j
  {
    hide Pow2;
    Doubled(perPage, j);
    if k < j - 1 {
      SmallerPowers(perPage, k, j - 1);
    }
  }

  /** When nothing fails and the caller always wants more, the requests before request `j`
      go on, on every collection that is long enough. */
  lemma RequestsGoOn<T>(items: seq<T>, opts: Options<T>, j: nat)
    requires opts.growing && 1 <= opts.perPage <= 100
    requires opts.perPage * Pow2(j) <= 100 && opts.perPage * Pow2(j) <= |items|
    requires (forall p :: !opts.fails(p)) && (forall buf :: opts.proceed(buf) == Continue)
    ensures forall k :: 0 <= k < j ==> GoesOn(items, opts, k)
  {
    hide Pow2, RequestPath, Delivered;
    forall k | 0 <= k < j
      ensures GoesOn(items, opts, k)
    {
      SmallerPowers(opts.perPage, k, j);
      DeliveryDoubles(opts.perPage, k);
      PowPositive(k);
      Product(opts.perPage, Pow2(k));
    }
  }
}
