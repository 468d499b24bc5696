/**
 * The two halves of paging: `listPackages`, `parsePageSize` and `parseOffset`
 * in internal/api/packages.go, and the `--all` loop in
 * cmd/transferctl/packages.go that follows the tokens.
 *
 * `all` is the filtered, ordered result the store would return without a limit.
 */
module Paging {
  import opened Text
  import opened Sequences

  const DEFAULT_PAGE_SIZE: nat := 50
  const MAX_PAGE_SIZE: nat := 500
  const MAX_PAGES: nat := 100

  datatype Response<T> = Response(packages: seq<T>, nextPageToken: string, totalSize: nat)

  datatype Reply<T> = Listed(response: Response<T>) | InvalidArgument

  function Min(a: nat, b: nat): nat {
    if a < b then a else b
  }

  function ParsePageSize(v: string): Option<nat> {
    if v == "" then Some(DEFAULT_PAGE_SIZE)
    else
      match Atoi(v)
      case None => None
      case Some(n) =>
        if n < 0 then None
        else if n == 0 then Some(DEFAULT_PAGE_SIZE)
        else if n > MAX_PAGE_SIZE then Some(MAX_PAGE_SIZE)
        else Some(n)
  }

  function ParseOffset(token: string): Option<nat> {
    if token == "" then Some(0)
    else
      match Atoi(token)
      case None => None
      case Some(n) => if n < 0 then None else Some(n)
  }

  // ---- specification ------------------------------------------------------

  /** The rows from `offset` up to `limit` of them. */
  function Slice<T>(all: seq<T>, offset: nat, limit: nat): seq<T> {
    all[Min(offset, |all|)..Min(offset + limit, |all|)]
  }

  /** A token is handed out exactly when rows remain, and names the first of them. */
  function TokenAt(offset: nat, total: nat): string {
    if offset < total then Itoa(offset) else ""
  }

  function Page<T>(all: seq<T>, size: nat, offset: nat, counted: bool): Response<T> {
    Response(
      Slice(all, offset, size),
      TokenAt(offset + size, |all|),
      if counted || (offset == 0 && |all| <= size) then |all| else 0)
  }

  function Serve<T>(all: seq<T>, pageSize: string, pageToken: string, counted: bool): Reply<T> {
    match (ParsePageSize(pageSize), ParseOffset(pageToken))
    case (Some(size), Some(offset)) => Listed(Page(all, size, offset, counted))
    case _ => InvalidArgument
  }

  // ---- the server ---------------------------------------------------------

  /** `counted` says whether the count query, if it is made, succeeds. */
  method ListPackages<T>(all: seq<T>, pageSize: string, pageToken: string, counted: bool) returns (r: Reply<T>)
    ensures r == Serve(all, pageSize, pageToken, counted)
  {
    hide ParsePageSize, ParseOffset, Slice, Itoa;
    var parsedSize := ParsePageSize(pageSize);
    if parsedSize.None? {
      return InvalidArgument;
    }
    var parsedOffset := ParseOffset(pageToken);
    if parsedOffset.None? {
      return InvalidArgument;
    }
    var size, offset := parsedSize.value, parsedOffset.value;
    ProbeRow(all, offset, size);
    // One row over the page size says whether there is another page.
    var rows := Slice(all, offset, size + 1);
    var token := "";
    if |rows| > size {
      rows := rows[..size];
      token := Itoa(offset + size);
    }
    ItoaNotEmpty(offset + size);
    var total := 0;
    if token != "" || offset > 0 {
      if counted {
        total := |all|;
      }
    } else {
      total := |rows|;
    }
    var packages: seq<T> := [];
    for i := 0 to |rows|
      invariant packages == rows[..i]
    {
      packages := packages + [rows[i]];
    }
    assert packages == rows;
    r := Listed(Response(packages, token, total));
  }

  lemma ProbeRow<T>(all: seq<T>, offset: nat, size: nat)
    ensures |Slice(all, offset, size + 1)| > size <==> offset + size < |all|
    ensures var rows := Slice(all, offset, size + 1);
      (if |rows| > size then rows[..size] else rows) == Slice(all, offset, size)
    ensures offset == 0 && |all| <= size ==> Slice(all, offset, size) == all
  {
  }

  lemma ItoaNotEmpty(n: nat)
    ensures Itoa(n) != ""
  {
  }

  // ---- the client ---------------------------------------------------------

  /** The first `pages` pages from `offset` on, with the first page's total. */
  function Pages<T>(all: seq<T>, size: nat, offset: nat, pages: nat, counted: bool): Response<T> {
    Page(all, pages * size, offset, counted).(totalSize := Page(all, size, offset, counted).totalSize)
  }

  /** `packages list --all`: the first page and up to 100 more. */
  method ListAll<T>(all: seq<T>, pageSize: string, pageToken: string, counted: bool) returns (r: Reply<T>)
    requires |all| <= MAX_INT64
    ensures match (ParsePageSize(pageSize), ParseOffset(pageToken))
      case (Some(size), Some(offset)) => r == Listed(Pages(all, size, offset, 101, counted))
      case _ => r == InvalidArgument
  {
    hide ParsePageSize, ParseOffset, Pages, Page;
    r := ListPackages(all, pageSize, pageToken, counted);
    if r.InvalidArgument? {
      return;
    }
    var resp := r.response;
    ghost var size, offset := ParsePageSize(pageSize).value, ParseOffset(pageToken).value;
    PageSizeInRange(pageSize);
    OnePage(all, size, offset, counted);
    var page := 0;
    while resp.nextPageToken != "" && page < MAX_PAGES
      invariant page <= MAX_PAGES
      invariant resp == Pages(all, size, offset, page + 1, counted)
      decreases MAX_PAGES - page
    {
      var again := *;
      NextPage(all, size, offset, page + 1, counted, again);
      var next := ListPackages(all, pageSize, resp.nextPageToken, again);
      resp := resp.(packages := resp.packages + next.response.packages, nextPageToken := next.response.nextPageToken);
      page := page + 1;
    }
    MorePagesAddNothing(all, size, offset, page + 1, counted);
    r := Listed(resp);
  }

  lemma OnePage<T>(all: seq<T>, size: nat, offset: nat, counted: bool)
    ensures Page(all, size, offset, counted) == Pages(all, size, offset, 1, counted)
  {
  }

  lemma NextPage<T>(all: seq<T>, size: nat, offset: nat, pages: nat, counted: bool, again: bool)
    requires |all| <= MAX_INT64
    requires Pages(all, size, offset, pages, counted).nextPageToken != ""
    ensures var resp := Pages(all, size, offset, pages, counted);
      && ParseOffset(resp.nextPageToken) == Some(offset + pages * size)
      && var next := Page(all, size, offset + pages * size, again);
      resp.(packages := resp.packages + next.packages, nextPageToken := next.nextPageToken)
        == Pages(all, size, offset, pages + 1, counted)
  {
    TokenResumes(offset + pages * size, |all|);
    SliceAppend(all, offset, pages * size, size);
    assert (pages + 1) * size == pages * size + size;
  }

  lemma MorePagesAddNothing<T>(all: seq<T>, size: nat, offset: nat, pages: nat, counted: bool)
    requires pages <= 1 + MAX_PAGES
    requires pages == 1 + MAX_PAGES || Pages(all, size, offset, pages, counted).nextPageToken == ""
    ensures Pages(all, size, offset, pages, counted) == Pages(all, size, offset, 1 + MAX_PAGES, counted)
  {
    if pages < 1 + MAX_PAGES {
      MulMonotone(pages, 1 + MAX_PAGES, size);
      NothingBeyondTheEnd(all, offset, pages * size, (1 + MAX_PAGES) * size);
    }
  }

  lemma MulMonotone(a: nat, b: nat, c: nat)
    requires a <= b
    ensures a * c <= b * c
  {
  }

  lemma NothingBeyondTheEnd<T>(all: seq<T>, offset: nat, some: nat, more: nat)
    requires some <= more && TokenAt(offset + some, |all|) == ""
    ensures Slice(all, offset, some) == Slice(all, offset, more)
    ensures TokenAt(offset + more, |all|) == ""
  {
    ItoaNotEmpty(offset + some);
  }

  /** What an accepted size means: 50 when none or zero is asked for, at most 500, otherwise the number itself. */
  lemma PageSizeMeans(n: int)
    requires -MAX_INT64 - 1 <= n <= MAX_INT64
    ensures ParsePageSize("") == Some(50) && ParsePageSize(Itoa(0)) == Some(50)
    ensures 1 <= n <= 500 ==> ParsePageSize(Itoa(n)) == Some(n)
    ensures n > 500 ==> ParsePageSize(Itoa(n)) == Some(500)
    ensures n < 0 ==> ParsePageSize(Itoa(n)) == None && ParseOffset(Itoa(n)) == None
    ensures n >= 0 ==> ParseOffset(Itoa(n)) == Some(n)
    ensures ParseOffset("") == Some(0)
  {
    AtoiOfItoa(n);
    AtoiOfItoa(0);
    assert n >= 0 ==> Itoa(n) != "";
  }

  /** A request is refused exactly for a size or a token that is not a natural number in range. */
  lemma RefusedExactly<T>(all: seq<T>, pageSize: string, pageToken: string, counted: bool)
    ensures Serve(all, pageSize, pageToken, counted) == InvalidArgument <==>
      || (pageSize != "" && (Atoi(pageSize) == None || Atoi(pageSize).value < 0))
      || (pageToken != "" && (Atoi(pageToken) == None || Atoi(pageToken).value < 0))
  {
  }

  /** The total is that of the whole result, or absent, and absent only when the count failed. */
  lemma TotalIsWhole<T>(all: seq<T>, pageSize: string, pageToken: string, counted: bool)
    requires Serve(all, pageSize, pageToken, counted).Listed?
    ensures var r := Serve(all, pageSize, pageToken, counted).response;
      && (r.totalSize == |all| || r.totalSize == 0)
      && (counted ==> r.totalSize == |all|)
      && (r.packages == all && r.nextPageToken == "" && (pageToken == "" || |all| == 0) ==> r.totalSize == |all|)
  {
    var size, offset := ParsePageSize(pageSize).value, ParseOffset(pageToken).value;
    ItoaNotEmpty(offset + size);
  }

  lemma PageSizeInRange(v: string)
    ensures ParsePageSize(v).Some? ==> 1 <= ParsePageSize(v).value <= MAX_PAGE_SIZE
    ensures ParsePageSize(v).Some? <==> v == "" || (Atoi(v).Some? && Atoi(v).value >= 0)
  {
  }

  lemma TokenResumes(offset: nat, total: nat)
    requires total <= MAX_INT64
    ensures offset < total <==> TokenAt(offset, total) != ""
    ensures offset < total ==> ParseOffset(TokenAt(offset, total)) == Some(offset)
  {
    ItoaNotEmpty(offset);
    if offset < total {
      AtoiOfItoa(offset);
    }
  }

  lemma SliceAppend<T>(all: seq<T>, offset: nat, a: nat, b: nat)
    ensures Slice(all, offset, a) + Slice(all, offset + a, b) == Slice(all, offset, a + b)
  {
  }

  // ---- following the tokens -----------------------------------------------

  /** The pages a client sees from `token` until no token is returned. */
  function Follow<T>(all: seq<T>, pageSize: string, token: string): seq<seq<T>>
    requires |all| <= MAX_INT64
    requires ParsePageSize(pageSize).Some? && ParseOffset(token).Some?
    decreases |all| - ParseOffset(token).value
  {
    var resp := Serve(all, pageSize, token, true).response;
    if resp.nextPageToken == "" then [resp.packages]
    else
      PageSizeInRange(pageSize);
      TokenResumes(ParseOffset(token).value + ParsePageSize(pageSize).value, |all|);
      [resp.packages] + Follow(all, pageSize, resp.nextPageToken)
  }

  function CeilDiv(n: nat, d: nat): nat
    requires d > 0
  {
    (n + d - 1) / d
  }

  lemma CeilDivStep(n: nat, d: nat)
    requires n > d > 0
    ensures CeilDiv(n, d) == 1 + CeilDiv(n - d, d) && CeilDiv(n - d, d) >= 1
  {
    assert (n - d + d - 1) / d + 1 == (n + d - 1) / d by {
      QuotientPlusOne(n - 1, d);
    }
  }

  lemma QuotientPlusOne(m: nat, d: nat)
    requires d > 0
    ensures (m + d) / d == m / d + 1
    ensures m >= d ==> m / d >= 1
  {
    var q, r := m / d, m % d;
    assert m == d * q + r;
    assert d * (q + 1) == d * q + d;
    QuotientIs(m + d, d, q + 1, r);
    if q == 0 {
      assert m < d;
    }
  }

  lemma QuotientIs(n: nat, d: nat, q: nat, r: nat)
    requires d > 0 && r < d && n == d * q + r
    ensures n / d == q
  {
    var k, r' := n / d, n % d;
    assert n == d * k + r';
    MultiplesApart(d, k, q, r - r');
    MultiplesApart(d, q, k, r' - r);
  }

  lemma MultiplesApart(d: int, k: int, q: int, gap: int)
    requires d > 0 && gap < d && d * k == d * q + gap
    ensures k <= q
  {
    var n := k - q;
    assert d * n == d * k - d * q == gap;
    if n >= 1 {
      AtLeast(d, n);
    }
  }

  lemma AtLeast(d: int, n: int)
    requires d > 0 && n >= 1
    ensures d * n >= d
  {
    assert d * n == d + d * (n - 1);
    assert d * (n - 1) >= 0;
  }

  lemma CeilDivSmall(n: nat, d: nat)
    requires n <= d && d > 0
    ensures CeilDiv(n, d) == if n == 0 then 0 else 1
  {
    if n == 0 { QuotientIs(d - 1, d, 0, d - 1); } else { QuotientIs(n + d - 1, d, 1, n - 1); }
  }

  lemma FollowStep<T>(all: seq<T>, pageSize: string, token: string)
    requires |all| <= MAX_INT64
    requires ParsePageSize(pageSize).Some? && ParseOffset(token).Some?
    ensures var offset, size := ParseOffset(token).value, ParsePageSize(pageSize).value;
      if offset + size < |all| then
        ParseOffset(TokenAt(offset + size, |all|)).Some? &&
        Follow(all, pageSize, token)
          == [Slice(all, offset, size)] + Follow(all, pageSize, TokenAt(offset + size, |all|))
      else Follow(all, pageSize, token) == [Slice(all, offset, size)]
  {
    hide ParsePageSize, ParseOffset, Slice;
    PageSizeInRange(pageSize);
    TokenResumes(ParseOffset(token).value + ParsePageSize(pageSize).value, |all|);
  }

  /** `pages` hold the rows from `offset` on, once, in order, in full pages but the last. */
  ghost predicate Enumerates<T>(all: seq<T>, offset: nat, size: nat, pages: seq<seq<T>>) {
    && 0 < size && offset <= |all|
    && Flatten(pages) == all[offset..]
    && |pages| == (if offset == |all| then 1 else CeilDiv(|all| - offset, size))
    && (forall i :: 0 <= i < |pages| - 1 ==> |pages[i]| == size)
    && (offset < |all| ==> pages != [] && 0 < |pages[|pages| - 1]| <= size)
  }

  lemma FullPageFirst<T>(all: seq<T>, offset: nat, size: nat, rest: seq<seq<T>>)
    requires offset + size < |all| && Enumerates(all, offset + size, size, rest)
    ensures Enumerates(all, offset, size, [Slice(all, offset, size)] + rest)
  {
    var pages := [Slice(all, offset, size)] + rest;
    assert pages[1..] == rest;
    assert all[offset..] == all[offset..offset + size] + all[offset + size..];
    CeilDivStep(|all| - offset, size);
    assert pages[|pages| - 1] == rest[|rest| - 1];
    assert forall i :: 0 < i < |pages| - 1 ==> pages[i] == rest[i - 1];
  }

  lemma LastPageOnly<T>(all: seq<T>, offset: nat, size: nat)
    requires size > 0 && offset <= |all| <= offset + size
    ensures Enumerates(all, offset, size, [Slice(all, offset, size)])
  {
    var only := Slice(all, offset, size);
    assert Flatten([only]) == only + Flatten([]) == only;
    CeilDivSmall(|all| - offset, size);
  }

  /** From any point on the tokens enumerate the rest. */
  lemma {:induction false} FollowFrom<T>(all: seq<T>, pageSize: string, token: string)
    requires |all| <= MAX_INT64
    requires ParsePageSize(pageSize).Some? && ParseOffset(token).Some?
    requires ParseOffset(token).value <= |all|
    ensures Enumerates(all, ParseOffset(token).value, ParsePageSize(pageSize).value, Follow(all, pageSize, token))
    decreases |all| - ParseOffset(token).value
  {
    PageSizeInRange(pageSize);
    var offset, size := ParseOffset(token).value, ParsePageSize(pageSize).value;
    TokenResumes(offset + size, |all|);
    FollowStep(all, pageSize, token);
    hide ParsePageSize, ParseOffset, Enumerates, TokenAt, Follow, Slice;
    if offset + size < |all| {
      var next := TokenAt(offset + size, |all|);
      FollowFrom(all, pageSize, next);
      FullPageFirst(all, offset, size, Follow(all, pageSize, next));
    } else {
      LastPageOnly(all, offset, size);
    }
  }

  /**
   * From the empty token the pages hold every row exactly once, in order, in
   * max(1, ceil(n / size)) pages of 1 to 500 rows; only an empty listing has an
   * empty page.
   */
  lemma PagesEnumerate<T>(all: seq<T>, pageSize: string)
    requires |all| <= MAX_INT64 && ParsePageSize(pageSize).Some?
    ensures 1 <= ParsePageSize(pageSize).value <= MAX_PAGE_SIZE
    ensures Enumerates(all, 0, ParsePageSize(pageSize).value, Follow(all, pageSize, ""))
    ensures Flatten(Follow(all, pageSize, "")) == all
  {
    PageSizeInRange(pageSize);
    FollowFrom(all, pageSize, "");
    assert all[0..] == all;
  }
}
