/**
 Paged queries: game-event-server/src/modules/event/dto/pagination.dto.ts and the `findAll`
 methods. Sorting is the database's: what is known of it is that it reorders what was found, by
 a rank for each field; rows of equal rank may come in any order, and differently each time.
 */
module Pagination {
  import opened Prelude
  import opened Requests

  datatype PageOf<T> = PageOf(items: seq<T>, total: nat, page: int, limit: int, pages: int)

  /** `Math.ceil(total / limit)`. */
  function PageCount(total: nat, limit: int): int
    requires limit != 0
  {
    if limit > 0 then (total + limit - 1) / limit else -(total / -limit)
  }

  function Min(a: int, b: int): int {
    if a < b then a else b
  }

  /** `skip(skip).limit(limit)` on a result list. */
  function Slice<T>(found: seq<T>, skip: nat, limit: nat): seq<T> {
    found[Min(skip, |found|)..Min(skip + limit, |found|)]
  }

  function PageItems<T>(found: seq<T>, page: nat, limit: nat): seq<T>
    requires page >= 1
  {
    Slice(found, (page - 1) * limit, limit)
  }

  /** Pages 1 to `n`, one after the other. */
  function Pages<T>(found: seq<T>, n: nat, limit: nat): seq<T> {
    if n == 0 then [] else Pages(found, n - 1, limit) + PageItems(found, n, limit)
  }

  lemma {:induction false} PagesArePrefix<T>(found: seq<T>, n: nat, limit: nat)
    ensures Pages(found, n, limit) == found[..Min(n * limit, |found|)]
  {
    if n > 0 {
      PagesArePrefix(found, n - 1, limit);
      var a, b := (n - 1) * limit, n * limit;
      assert b == a + limit;
      if a < |found| {
        assert found[..a] + found[a..Min(b, |found|)] == found[..Min(b, |found|)];
      }
    }
  }

  lemma PageCountBounds(total: nat, limit: nat)
    requires limit > 0
    ensures PageCount(total, limit) * limit >= total
    ensures total > 0 ==> PageCount(total, limit) >= 1 && (PageCount(total, limit) - 1) * limit < total
    ensures total == 0 ==> PageCount(total, limit) == 0
  {
    var n := PageCount(total, limit);
    var rest := (total + limit - 1) % limit;
    assert total + limit - 1 == n * limit + rest;
    assert n * limit >= total;
    assert (n - 1) * limit == n * limit - limit;
  }

  /** With a negative limit the count is still the quotient rounded up: zero or negative. */
  lemma NegativePageCount(total: nat, limit: int)
    requires limit < 0
    ensures PageCount(total, limit) <= 0
    ensures PageCount(total, limit) * limit <= total < (PageCount(total, limit) - 1) * limit
  {
    var k := -limit;
    var n := total / k;
    assert total == n * k + total % k && 0 <= total % k < k;
    assert PageCount(total, limit) == -n;
    assert -n * limit == n * k && (-n - 1) * limit == n * k + k;
  }

  lemma MulMonotone(a: int, b: int, c: nat)
    requires a <= b
    ensures a * c <= b * c
  {}

  lemma PageEnd(page: nat, limit: nat)
    requires page >= 1
    ensures page * limit == (page - 1) * limit + limit
  {}

  lemma PageLength<T>(found: seq<T>, page: nat, limit: nat)
    requires page >= 1 && limit > 0
    ensures page < PageCount(|found|, limit) ==> |PageItems(found, page, limit)| == limit
    ensures page == PageCount(|found|, limit) ==> 1 <= |PageItems(found, page, limit)| <= limit
    ensures page > PageCount(|found|, limit) ==> PageItems(found, page, limit) == []
  {
    var n := PageCount(|found|, limit);
    PageCountBounds(|found|, limit);
    PageEnd(page, limit);
    if page < n {
      MulMonotone(page, n - 1, limit);
    } else if page > n {
      MulMonotone(n, page - 1, limit);
    }
  }

  /**
   Walking through the pages 1..pages yields the whole result, each entry once and in order;
   every page but the last is full, the last is not empty, and pages beyond it are empty.
   */
  lemma PagesPartition<T>(found: seq<T>, limit: nat)
    requires limit > 0
    ensures Pages(found, PageCount(|found|, limit), limit) == found
    ensures forall page: nat | 1 <= page < PageCount(|found|, limit) :: |PageItems(found, page, limit)| == limit
    ensures found != [] ==>
              PageCount(|found|, limit) >= 1 && 1 <= |PageItems(found, PageCount(|found|, limit), limit)| <= limit
    ensures forall page: nat | page > PageCount(|found|, limit) :: PageItems(found, page, limit) == []
  {
    PageCountBounds(|found|, limit);
    PagesArePrefix(found, PageCount(|found|, limit), limit);
    forall page: nat | page >= 1
      ensures page < PageCount(|found|, limit) ==> |PageItems(found, page, limit)| == limit
      ensures page == PageCount(|found|, limit) ==> 1 <= |PageItems(found, page, limit)| <= limit
      ensures page > PageCount(|found|, limit) ==> PageItems(found, page, limit) == []
    {
      PageLength(found, page, limit);
    }
  }

  lemma DivMod(i: nat, limit: nat)
    requires limit > 0
    ensures i == (i / limit) * limit + i % limit && i % limit < limit
  {}

  /** Where the i-th entry of the result is shown: on one page, at one place. */
  lemma EntryIsOnOnePage<T>(found: seq<T>, i: nat, limit: nat)
    requires limit > 0 && i < |found|
    ensures var page := i / limit + 1;
            && page <= PageCount(|found|, limit)
            && i % limit < |PageItems(found, page, limit)|
            && PageItems(found, page, limit)[i % limit] == found[i]
  {
    var page, start := i / limit + 1, (i / limit) * limit;
    DivMod(i, limit);
    assert (page - 1) * limit == start;
    PageCountBounds(|found|, limit);
    if page > PageCount(|found|, limit) {
      MulMonotone(PageCount(|found|, limit), page - 1, limit);
    }
    assert PageItems(found, page, limit) == found[start..Min(start + limit, |found|)];
  }

  // ---------------------------------------------------------------- findAll

  /** A stored request with its creation time. */
  datatype Row = Row(request: Request, createdAt: int)

  /** The argument of `RewardRequestService.findAll`; absent or empty conditions do not restrict. */
  datatype RequestFilter = RequestFilter(
    userId: Option<string>,
    eventId: Option<string>,
    status: Option<Status>,
    startDate: Option<int>,
    endDate: Option<int>,
    page: Option<int>,
    limit: Option<int>,
    sortBy: Option<string>,
    sortOrder: Option<string>)

  const NO_FILTER := RequestFilter(None, None, None, None, None, None, None, None, None)

  /** What the caller asks for. */
  predicate Wanted(f: RequestFilter, x: Row) {
    && (f.userId.GetOr("") == "" || x.request.userId == f.userId.value)
    && (f.eventId.GetOr("") == "" || x.request.eventId == f.eventId.value)
    && (f.status.None? || x.request.status == f.status.value)
    && (f.startDate.None? || f.startDate.value <= x.createdAt)
    && (f.endDate.None? || x.createdAt <= f.endDate.value)
  }

  function Where(rows: seq<Row>, p: Row -> bool): seq<Row> {
    if rows == [] then [] else (if p(rows[0]) then [rows[0]] else []) + Where(rows[1..], p)
  }

  function Selected(f: RequestFilter, rows: seq<Row>): seq<Row> {
    Where(rows, x => Wanted(f, x))
  }

  /** One entry of the query object. */
  datatype Clause = UserIs(id: string) | EventIs(id: string) | StatusIs(status: Status) | CreatedFrom(ms: int) | CreatedTo(ms: int)

  predicate Holds(c: Clause, x: Row) {
    match c
    case UserIs(id) => x.request.userId == id
    case EventIs(id) => x.request.eventId == id
    case StatusIs(status) => x.request.status == status
    case CreatedFrom(ms) => x.createdAt >= ms
    case CreatedTo(ms) => x.createdAt <= ms
  }

  /** How the database reads a query: all its entries hold. */
  predicate Matches(query: seq<Clause>, x: Row) {
    forall c <- query :: Holds(c, x)
  }

  lemma MatchesAppend(query: seq<Clause>, c: Clause)
    ensures forall x :: Matches(query + [c], x) <==> Matches(query, x) && Holds(c, x)
  {
    forall x ensures Matches(query + [c], x) <==> Matches(query, x) && Holds(c, x) {
      assert c in query + [c];
    }
  }

  lemma {:induction false} WhereAgrees(rows: seq<Row>, p: Row -> bool, q: Row -> bool)
    requires forall x :: p(x) <==> q(x)
    ensures Where(rows, p) == Where(rows, q)
  {
    if rows != [] {
      WhereAgrees(rows[1..], p, q);
    }
  }

  lemma {:induction false} WhereMembers(rows: seq<Row>, p: Row -> bool)
    ensures forall x :: x in Where(rows, p) <==> x in rows && p(x)
  {
    if rows != [] {
      WhereMembers(rows[1..], p);
      assert rows == [rows[0]] + rows[1..];
    }
  }

  /** JavaScript's `x || d` on a number, and on a text. */
  function OrDefault(x: Option<int>, d: int): int {
    if x.Some? && x.value != 0 then x.value else d
  }

  function TextOrDefault(x: Option<string>, d: string): string {
    if x.GetOr("") != "" then x.value else d
  }

  /** `find().sort({ field: 1 or -1 })` on what was found. */
  type Sort = (string, bool, seq<Row>) -> seq<Row>

  function Ordered(f: RequestFilter, sort: Sort, rows: seq<Row>): seq<Row> {
    sort(TextOrDefault(f.sortBy, "createdAt"), f.sortOrder == Some("asc"), Selected(f, rows))
  }

  /**
   The answer for a page. The database refuses to skip a negative number of rows (None), and
   reads a negative limit as its absolute value.
   */
  function Answer(f: RequestFilter, sort: Sort, rows: seq<Row>): Option<PageOf<Row>> {
    var page, limit, total := OrDefault(f.page, 1), OrDefault(f.limit, 10), |Selected(f, rows)|;
    var skip := (page - 1) * limit;
    if skip < 0 then None
    else Some(PageOf(Slice(Ordered(f, sort, rows), skip, if limit < 0 then -limit else limit), total, page, limit, PageCount(total, limit)))
  }

  /**
   The answer, with the defaults written out: page 1, ten rows a page, by `createdAt`, newest
   first. Which pages are refused, and that with a positive limit the others are the slices
   `PageItems` names.
   */
  lemma AnswerIsAPage(f: RequestFilter, sort: Sort, rows: seq<Row>)
    ensures var page := if f.page.None? || f.page == Some(0) then 1 else f.page.value;
            var limit := if f.limit.None? || f.limit == Some(0) then 10 else f.limit.value;
            var field := if f.sortBy.None? || f.sortBy == Some("") then "createdAt" else f.sortBy.value;
            var found := sort(field, f.sortOrder == Some("asc"), Selected(f, rows));
            var r := Answer(f, sort, rows);
            && (r.None? <==> if limit > 0 then page < 1 else page > 1)
            && (r.Some? ==>
                  && r.value.page == page && r.value.limit == limit && r.value.total == |Selected(f, rows)|
                  && r.value.pages == PageCount(r.value.total, limit)
                  && (limit > 0 ==> r.value.items == PageItems(found, page, limit))
                  && (limit < 0 ==> r.value.items == Slice(found, (page - 1) * limit, -limit)))
  {
    SkipSign(OrDefault(f.page, 1), OrDefault(f.limit, 10));
  }

  lemma SkipSign(page: int, limit: int)
    requires limit != 0
    ensures (page - 1) * limit < 0 <==> if limit > 0 then page < 1 else page > 1
    decreases limit < 0
  {
    if limit < 0 {
      SkipSign(2 - page, -limit);
      assert (page - 1) * limit == (2 - page - 1) * -limit;
    } else if page < 1 {
      MulMonotone(page - 1, -1, limit);
    } else {
      MulMonotone(0, page - 1, limit);
    }
  }

  method FindAll(rows: seq<Row>, filter: Option<RequestFilter>, sort: Sort) returns (r: Option<PageOf<Row>>)
    ensures r == Answer(filter.GetOr(NO_FILTER), sort, rows)
  {
    var query: seq<Clause> := [];
    ghost var f := filter.GetOr(NO_FILTER);
    if filter.Some? {
      query := QueryFor(filter.value);
    }
    WhereAgrees(rows, x => Matches(query, x), x => Wanted(f, x));
    var page := if filter.Some? then OrDefault(filter.value.page, 1) else 1;
    var limit := if filter.Some? then OrDefault(filter.value.limit, 10) else 10;
    var skip := (page - 1) * limit;
    var sortField := if filter.Some? then TextOrDefault(filter.value.sortBy, "createdAt") else "createdAt";
    var ascending := filter.Some? && filter.value.sortOrder == Some("asc");
    if skip < 0 {
      return None;
    }
    var found := Where(rows, x => Matches(query, x));
    var items := Slice(sort(sortField, ascending, found), skip, if limit < 0 then -limit else limit);
    return Some(PageOf(items, |found|, page, limit, PageCount(|found|, limit)));
  }

  /** The query object, filled in step by step. */
  method QueryFor(f: RequestFilter) returns (query: seq<Clause>)
    ensures forall x :: Matches(query, x) <==> Wanted(f, x)
  {
    query := [];
    if f.userId.GetOr("") != "" {
      MatchesAppend(query, UserIs(f.userId.value));
      query := query + [UserIs(f.userId.value)];
    }
    if f.eventId.GetOr("") != "" {
      MatchesAppend(query, EventIs(f.eventId.value));
      query := query + [EventIs(f.eventId.value)];
    }
    if f.status.Some? {
      MatchesAppend(query, StatusIs(f.status.value));
      query := query + [StatusIs(f.status.value)];
    }
    if f.startDate.Some? {
      MatchesAppend(query, CreatedFrom(f.startDate.value));
      query := query + [CreatedFrom(f.startDate.value)];
    }
    if f.endDate.Some? {
      MatchesAppend(query, CreatedTo(f.endDate.value));
      query := query + [CreatedTo(f.endDate.value)];
    }
  }

  method FindByUserId(rows: seq<Row>, userId: string, filter: Option<RequestFilter>, sort: Sort) returns (r: Option<PageOf<Row>>)
    ensures r == Answer(filter.GetOr(NO_FILTER).(userId := Some(userId)), sort, rows)
  {
    var newFilter := filter.GetOr(NO_FILTER).(userId := Some(userId));
    r := FindAll(rows, Some(newFilter), sort);
  }

  // ---------------------------------------------------------------- walking through the pages

  predicate InOrder(rank: Row -> int, ascending: bool, rows: seq<Row>) {
    forall i, j | 0 <= i < j < |rows| :: if ascending then rank(rows[i]) <= rank(rows[j]) else rank(rows[j]) <= rank(rows[i])
  }

  /** `out` is one of the answers the database may give when asked to sort `rows`. */
  predicate IsSorting(rank: Row -> int, ascending: bool, rows: seq<Row>, out: seq<Row>) {
    multiset(out) == multiset(rows) && InOrder(rank, ascending, out)
  }

  predicate NoTies(rank: Row -> int, rows: seq<Row>) {
    forall i, j | 0 <= i < j < |rows| :: rank(rows[i]) != rank(rows[j])
  }

  lemma SameFirst(rank: Row -> int, ascending: bool, a: seq<Row>, b: seq<Row>)
    requires multiset(a) == multiset(b) && a != [] && b != []
    requires InOrder(rank, ascending, a) && InOrder(rank, ascending, b) && NoTies(rank, a)
    ensures a[0] == b[0]
  {
    assert a[0] in multiset(b) && b[0] in multiset(a);
    var k :| 0 <= k < |b| && b[k] == a[0];
    var l :| 0 <= l < |a| && a[l] == b[0];
  }

  /** Without ties there is only one way to sort. */
  lemma {:induction false} SortingUnique(rank: Row -> int, ascending: bool, a: seq<Row>, b: seq<Row>)
    requires multiset(a) == multiset(b)
    requires InOrder(rank, ascending, a) && InOrder(rank, ascending, b) && NoTies(rank, a)
    ensures a == b
  {
    assert |multiset(a)| == |a| && |multiset(b)| == |b|;
    if a != [] {
      SameFirst(rank, ascending, a, b);
      RestOf(rank, ascending, a);
      RestOf(rank, ascending, b);
      SortingUnique(rank, ascending, a[1..], b[1..]);
    }
  }

  lemma RestOf(rank: Row -> int, ascending: bool, rows: seq<Row>)
    requires rows != [] && InOrder(rank, ascending, rows)
    ensures rows == [rows[0]] + rows[1..] && multiset(rows[1..]) == multiset(rows) - multiset{rows[0]}
    ensures InOrder(rank, ascending, rows[1..])
    ensures NoTies(rank, rows) ==> NoTies(rank, rows[1..])
  {
    assert rows == [rows[0]] + rows[1..];
    assert forall i | 0 <= i < |rows[1..]| :: rows[1..][i] == rows[i + 1];
  }

  /** The items of pages 1 to `n`, each cut from the answer to its own query. */
  function Walk(answers: nat -> seq<Row>, n: nat, limit: nat): seq<Row> {
    if n == 0 then [] else Walk(answers, n - 1, limit) + PageItems(answers(n), n, limit)
  }

  lemma {:induction false} WalkIsPages(answers: nat -> seq<Row>, found: seq<Row>, n: nat, limit: nat)
    requires forall p | 1 <= p <= n :: answers(p) == found
    ensures Walk(answers, n, limit) == Pages(found, n, limit)
  {
    if n > 0 {
      WalkIsPages(answers, found, n - 1, limit);
    }
  }

  /**
   Asking for pages 1 to `pages`, one query after the other, shows every row asked for exactly
   once and in order, however the database breaks ties, provided that no two of them tie.
   */
  lemma WalkShowsEverything(rank: Row -> int, ascending: bool, rows: seq<Row>, f: RequestFilter, answers: nat -> seq<Row>, limit: nat)
    requires limit > 0 && NoTies(rank, answers(1))
    requires forall p | p >= 1 :: IsSorting(rank, ascending, Selected(f, rows), answers(p))
    ensures var n := PageCount(|Selected(f, rows)|, limit);
            && n >= 0 && Walk(answers, n, limit) == answers(1)
            && (forall x :: x in Walk(answers, n, limit) <==> x in rows && Wanted(f, x))
  {
    var found := answers(1);
    forall p | p >= 1 ensures answers(p) == found {
      assert IsSorting(rank, ascending, Selected(f, rows), answers(p));
      SortingUnique(rank, ascending, found, answers(p));
    }
    assert |multiset(found)| == |found| && |multiset(Selected(f, rows))| == |Selected(f, rows)|;
    var n := PageCount(|found|, limit);
    PageCountBounds(|found|, limit);
    WalkIsPages(answers, found, n, limit);
    PagesPartition(found, limit);
    WhereMembers(rows, x => Wanted(f, x));
    forall x ensures x in found <==> x in Selected(f, rows) {
      assert x in multiset(found) <==> x in multiset(Selected(f, rows));
    }
  }

  // ---------------------------------------------------------------- exactly when nothing is hidden

  predicate NotAfter(rank: Row -> int, ascending: bool, x: Row, y: Row) {
    if ascending then rank(x) <= rank(y) else rank(y) <= rank(x)
  }

  lemma {:induction false} WhereCounts(rows: seq<Row>, p: Row -> bool, x: Row)
    ensures multiset(Where(rows, p))[x] == if p(x) then multiset(rows)[x] else 0
  {
    if rows != [] {
      WhereCounts(rows[1..], p, x);
      assert rows == [rows[0]] + rows[1..];
    }
  }

  lemma WhereOfSame(a: seq<Row>, b: seq<Row>, p: Row -> bool)
    requires multiset(a) == multiset(b)
    ensures multiset(Where(a, p)) == multiset(Where(b, p)) && |Where(a, p)| == |Where(b, p)|
  {
    forall x ensures multiset(Where(a, p))[x] == multiset(Where(b, p))[x] {
      WhereCounts(a, p, x);
      WhereCounts(b, p, x);
    }
    assert |multiset(Where(a, p))| == |Where(a, p)| && |multiset(Where(b, p))| == |Where(b, p)|;
  }

  /** What holds of earlier rows whenever it holds of later ones holds of a prefix. */
  lemma {:induction false} WhereIsPrefix(rows: seq<Row>, p: Row -> bool)
    requires forall i, j | 0 <= i < j < |rows| :: p(rows[j]) ==> p(rows[i])
    ensures |Where(rows, p)| <= |rows| && Where(rows, p) == rows[..|Where(rows, p)|]
    ensures forall i | 0 <= i < |rows| :: p(rows[i]) <==> i < |Where(rows, p)|
  {
    if rows != [] {
      WhereIsPrefix(rows[1..], p);
      assert rows == [rows[0]] + rows[1..];
      assert forall i | 0 < i < |rows| :: rows[i] == rows[1..][i - 1];
    }
  }

  lemma RowsNotAfter(rank: Row -> int, ascending: bool, rows: seq<Row>, bound: Row)
    requires InOrder(rank, ascending, rows)
    ensures var p := (x: Row) => NotAfter(rank, ascending, x, bound);
            && |Where(rows, p)| <= |rows| && Where(rows, p) == rows[..|Where(rows, p)|]
            && forall i | 0 <= i < |rows| :: NotAfter(rank, ascending, rows[i], bound) <==> i < |Where(rows, p)|
  {
    var p := (x: Row) => NotAfter(rank, ascending, x, bound);
    WhereIsPrefix(rows, p);
    assert forall i | 0 <= i < |rows| :: p(rows[i]) <==> NotAfter(rank, ascending, rows[i], bound);
  }

  /** Two sortings of the same rows agree on which places hold rows not after a given one. */
  lemma SameSplit(rank: Row -> int, ascending: bool, a: seq<Row>, b: seq<Row>, bound: Row) returns (c: nat)
    requires multiset(a) == multiset(b) && |a| == |b|
    requires InOrder(rank, ascending, a) && InOrder(rank, ascending, b)
    ensures c <= |a| && multiset(a[..c]) == multiset(b[..c])
    ensures forall i | 0 <= i < |a| :: NotAfter(rank, ascending, a[i], bound) <==> i < c
    ensures forall i | 0 <= i < |b| :: NotAfter(rank, ascending, b[i], bound) <==> i < c
  {
    var p := (x: Row) => NotAfter(rank, ascending, x, bound);
    RowsNotAfter(rank, ascending, a, bound);
    RowsNotAfter(rank, ascending, b, bound);
    WhereOfSame(a, b, p);
    c := |Where(a, p)|;
  }

  /** So the ranks in each place are the same in every sorting. */
  lemma SameRanks(rank: Row -> int, ascending: bool, a: seq<Row>, b: seq<Row>, i: nat)
    requires multiset(a) == multiset(b) && |a| == |b| && i < |a|
    requires InOrder(rank, ascending, a) && InOrder(rank, ascending, b)
    ensures rank(a[i]) == rank(b[i])
  {
    var c := SameSplit(rank, ascending, a, b, a[i]);
    var d := SameSplit(rank, ascending, a, b, b[i]);
    assert NotAfter(rank, ascending, b[i], a[i]) && NotAfter(rank, ascending, a[i], b[i]);
  }

  /** Between rows of different rank any two sortings are cut alike. */
  lemma SameCut(rank: Row -> int, ascending: bool, a: seq<Row>, b: seq<Row>, c: nat)
    requires multiset(a) == multiset(b) && |a| == |b| && c <= |a|
    requires InOrder(rank, ascending, a) && InOrder(rank, ascending, b)
    requires CleanCut(rank, a, c)
    ensures multiset(a[..c]) == multiset(b[..c])
  {
    if 0 < c < |a| {
      var d := SameSplit(rank, ascending, a, b, a[c - 1]);
      assert NotAfter(rank, ascending, a[c - 1], a[c - 1]) && !NotAfter(rank, ascending, a[c], a[c - 1]);
      assert c == d;
    } else if c == |a| {
      assert a[..c] == a && b[..c] == b;
    }
  }

  /** No two rows of the same rank on either side of place `c`. */
  predicate CleanCut(rank: Row -> int, out: seq<Row>, c: nat) {
    0 < c < |out| ==> rank(out[c - 1]) != rank(out[c])
  }

  /** No page ends between two rows of the same rank. */
  ghost predicate CleanCuts(rank: Row -> int, out: seq<Row>, limit: nat) {
    forall q: nat :: CleanCut(rank, out, q * limit)
  }

  ghost predicate AllSortings(rank: Row -> int, ascending: bool, rows: seq<Row>, answers: nat -> seq<Row>) {
    forall p: nat :: IsSorting(rank, ascending, rows, answers(p))
  }

  lemma SortingsAlike(rank: Row -> int, ascending: bool, rows: seq<Row>, a: seq<Row>, b: seq<Row>)
    requires IsSorting(rank, ascending, rows, a) && IsSorting(rank, ascending, rows, b)
    ensures multiset(a) == multiset(b) && |a| == |b| == |rows|
  {
    assert |multiset(a)| == |a| && |multiset(b)| == |b| && |multiset(rows)| == |rows|;
  }

  lemma PageIsBetween(found: seq<Row>, n: nat, limit: nat)
    requires n > 0
    ensures var a, b := Min((n - 1) * limit, |found|), Min(n * limit, |found|);
            && 0 <= a <= b <= |found| && PageItems(found, n, limit) == found[a..b]
            && found[..b] == found[..a] + PageItems(found, n, limit)
            && multiset(found[..b]) == multiset(found[..a]) + multiset(PageItems(found, n, limit))
  {
    PageEnd(n, limit);
    var a, b := Min((n - 1) * limit, |found|), Min(n * limit, |found|);
    MulMonotone(0, n - 1, limit);
    assert found[..b] == found[..a] + found[a..b];
  }

  lemma SamePage(rank: Row -> int, ascending: bool, a: seq<Row>, b: seq<Row>, n: nat, limit: nat)
    requires multiset(a) == multiset(b) && |a| == |b| && n > 0
    requires InOrder(rank, ascending, a) && InOrder(rank, ascending, b) && CleanCuts(rank, a, limit)
    ensures multiset(PageItems(a, n, limit)) == multiset(PageItems(b, n, limit))
  {
    PageIsBetween(a, n, limit);
    PageIsBetween(b, n, limit);
    SamePrefix(rank, ascending, a, b, n - 1, limit);
    SamePrefix(rank, ascending, a, b, n, limit);
    SameRest(multiset(a[..Min((n - 1) * limit, |a|)]), multiset(PageItems(a, n, limit)), multiset(PageItems(b, n, limit)));
  }

  lemma SameRest(front: multiset<Row>, a: multiset<Row>, b: multiset<Row>)
    requires front + a == front + b
    ensures a == b
  {
    assert a == front + a - front && b == front + b - front;
  }

  lemma SamePrefix(rank: Row -> int, ascending: bool, a: seq<Row>, b: seq<Row>, q: nat, limit: nat)
    requires multiset(a) == multiset(b) && |a| == |b|
    requires InOrder(rank, ascending, a) && InOrder(rank, ascending, b) && CleanCuts(rank, a, limit)
    ensures 0 <= Min(q * limit, |a|) <= |a| && multiset(a[..Min(q * limit, |a|)]) == multiset(b[..Min(q * limit, |a|)])
  {
    MulMonotone(0, q, limit);
    assert CleanCut(rank, a, q * limit);
    SameCut(rank, ascending, a, b, Min(q * limit, |a|));
  }

  /** With clean cuts a walk shows what the pages of any one sorting show. */
  lemma {:induction false} CleanWalk(rank: Row -> int, ascending: bool, rows: seq<Row>, out: seq<Row>, answers: nat -> seq<Row>, n: nat, limit: nat)
    requires IsSorting(rank, ascending, rows, out) && AllSortings(rank, ascending, rows, answers)
    requires CleanCuts(rank, out, limit)
    ensures multiset(Walk(answers, n, limit)) == multiset(Pages(out, n, limit))
  {
    if n > 0 {
      CleanWalk(rank, ascending, rows, out, answers, n - 1, limit);
      assert IsSorting(rank, ascending, rows, answers(n));
      AnswerPage(rank, ascending, rows, out, answers(n), n, limit);
      JoinedAlike(Walk(answers, n - 1, limit), PageItems(answers(n), n, limit), Pages(out, n - 1, limit), PageItems(out, n, limit));
    }
  }

  lemma AnswerPage(rank: Row -> int, ascending: bool, rows: seq<Row>, out: seq<Row>, answer: seq<Row>, n: nat, limit: nat)
    requires IsSorting(rank, ascending, rows, out) && IsSorting(rank, ascending, rows, answer)
    requires CleanCuts(rank, out, limit) && n > 0
    ensures multiset(PageItems(answer, n, limit)) == multiset(PageItems(out, n, limit))
  {
    SortingsAlike(rank, ascending, rows, out, answer);
    SamePage(rank, ascending, out, answer, n, limit);
  }

  lemma JoinedAlike(a: seq<Row>, b: seq<Row>, c: seq<Row>, d: seq<Row>)
    requires multiset(a) == multiset(c) && multiset(b) == multiset(d)
    ensures multiset(a + b) == multiset(c + d)
  {}

  /** Clean cuts or not, the walk is in order: each place shows the rank that belongs there. */
  lemma {:induction false} WalkRanks(rank: Row -> int, ascending: bool, rows: seq<Row>, out: seq<Row>, answers: nat -> seq<Row>, n: nat, limit: nat)
    requires IsSorting(rank, ascending, rows, out) && AllSortings(rank, ascending, rows, answers)
    ensures |Walk(answers, n, limit)| == Min(n * limit, |out|)
    ensures forall i | 0 <= i < |Walk(answers, n, limit)| :: rank(Walk(answers, n, limit)[i]) == rank(out[i])
  {
    if n > 0 {
      var found, before := answers(n), Walk(answers, n - 1, limit);
      WalkRanks(rank, ascending, rows, out, answers, n - 1, limit);
      assert IsSorting(rank, ascending, rows, found);
      SortingsAlike(rank, ascending, rows, out, found);
      PageIsBetween(found, n, limit);
      var walk := Walk(answers, n, limit);
      forall i | 0 <= i < |walk| ensures rank(walk[i]) == rank(out[i]) {
        if i < |before| {
          assert walk[i] == before[i];
        } else {
          assert walk[i] == found[i];
          SameRanks(rank, ascending, out, found, i);
        }
      }
    }
  }

  lemma NextSlice(front: seq<Row>, rows: seq<Row>, c: nat, x: nat, y: nat)
    requires c <= x <= y <= |rows|
    ensures front + rows[c..x] + rows[x..y] == front + rows[c..y]
  {}

  /** Up to page `q` one answer, after it another. */
  lemma {:induction false} WalkOfTwo(answers: nat -> seq<Row>, a: seq<Row>, b: seq<Row>, q: nat, n: nat, c: nat, limit: nat)
    requires |a| == |b| && q <= n && c == q * limit <= |a|
    requires (forall p | 1 <= p <= q :: answers(p) == a) && (forall p | q < p :: answers(p) == b)
    ensures Walk(answers, n, limit) == a[..c] + b[c..Max(c, Min(n * limit, |b|))]
    decreases n
  {
    if n == q {
      WalkIsPages(answers, a, q, limit);
      PagesArePrefix(a, q, limit);
    } else {
      WalkOfTwo(answers, a, b, q, n - 1, c, limit);
      PageIsBetween(b, n, limit);
      MulMonotone(q, n - 1, limit);
      NextSlice(a[..c], b, c, Min((n - 1) * limit, |b|), Min(n * limit, |b|));
    }
  }

  function Max(a: int, b: int): int {
    if a < b then b else a
  }

  /** `out` with the rows before and after place `c` exchanged. */
  function Exchanged(out: seq<Row>, c: nat): seq<Row>
    requires 0 < c < |out|
  {
    out[..c - 1] + [out[c], out[c - 1]] + out[c + 1..]
  }

  lemma ExchangedSorts(rank: Row -> int, ascending: bool, rows: seq<Row>, out: seq<Row>, c: nat)
    requires IsSorting(rank, ascending, rows, out) && 0 < c < |out| && rank(out[c - 1]) == rank(out[c])
    ensures IsSorting(rank, ascending, rows, Exchanged(out, c))
  {
    var other := Exchanged(out, c);
    assert out == out[..c - 1] + [out[c - 1], out[c]] + out[c + 1..];
    assert multiset([out[c], out[c - 1]]) == multiset([out[c - 1], out[c]]);
    assert forall i | 0 <= i < |out| :: rank(other[i]) == rank(out[i]);
  }

  /** Two rows of the same rank on either side of a page's end: one of them can be missed. */
  lemma UncleanHides(rank: Row -> int, ascending: bool, rows: seq<Row>, out: seq<Row>, q: nat, n: nat, limit: nat)
    returns (answers: nat -> seq<Row>)
    requires IsSorting(rank, ascending, rows, out) && (forall i, j | 0 <= i < j < |out| :: out[i] != out[j])
    requires 0 < q * limit < |out| <= n * limit && rank(out[q * limit - 1]) == rank(out[q * limit])
    ensures AllSortings(rank, ascending, rows, answers)
    ensures multiset(Walk(answers, n, limit)) != multiset(rows)
  {
    var c := q * limit;
    var other := Exchanged(out, c);
    ExchangedSorts(rank, ascending, rows, out, c);
    answers := p => if p <= q then out else other;
    WalkToTheEnd(answers, out, other, q, n, c, limit);
    OneIsMissing(out, c);
  }

  lemma WalkToTheEnd(answers: nat -> seq<Row>, a: seq<Row>, b: seq<Row>, q: nat, n: nat, c: nat, limit: nat)
    requires |a| == |b| && c == q * limit < |a| <= n * limit
    requires (forall p | 1 <= p <= q :: answers(p) == a) && (forall p | q < p :: answers(p) == b)
    ensures Walk(answers, n, limit) == a[..c] + b[c..]
  {
    if n < q {
      MulMonotone(n, q, limit);
    }
    WalkOfTwo(answers, a, b, q, n, c, limit);
  }

  lemma OneIsMissing(out: seq<Row>, c: nat)
    requires 0 < c < |out| && forall i, j | 0 <= i < j < |out| :: out[i] != out[j]
    ensures multiset(out[..c] + Exchanged(out, c)[c..]) != multiset(out)
  {
    var walk := out[..c] + Exchanged(out, c)[c..];
    forall i | 0 <= i < |walk| ensures walk[i] != out[c] {
      assert walk[i] == if i < c then out[i] else if i == c then out[c - 1] else out[i];
    }
    assert out[c] !in walk && out[c] in out;
    assert out[c] !in multiset(walk) && out[c] in multiset(out);
  }

  /**
   Asking for pages 1 to `pages`, one query after the other, is certain to show every row asked
   for exactly once, and in order, if and only if no page ends between two rows that tie: not
   one of the database's choices among ties can then hide a row, otherwise some choice does.
   */
  lemma {:induction false} WalkIsCompleteIff(rank: Row -> int, ascending: bool, rows: seq<Row>, out: seq<Row>, limit: nat)
    requires limit > 0 && IsSorting(rank, ascending, rows, out)
    requires forall i, j | 0 <= i < j < |out| :: out[i] != out[j]
    ensures var n := PageCount(|rows|, limit);
            n >= 0 &&
            ((forall answers | AllSortings(rank, ascending, rows, answers) ::
                IsSorting(rank, ascending, rows, Walk(answers, n, limit)))
             <==> CleanCuts(rank, out, limit))
  {
    SortingsAlike(rank, ascending, rows, out, out);
    PageCountBounds(|out|, limit);
    var n: nat := PageCount(|rows|, limit);
    if CleanCuts(rank, out, limit) {
      PagesPartition(out, limit);
      forall answers | AllSortings(rank, ascending, rows, answers)
        ensures IsSorting(rank, ascending, rows, Walk(answers, n, limit))
      {
        CleanWalk(rank, ascending, rows, out, answers, n, limit);
        WalkRanks(rank, ascending, rows, out, answers, n, limit);
      }
    } else {
      var q: nat :| !CleanCut(rank, out, q * limit);
      var answers := UncleanHides(rank, ascending, rows, out, q, n, limit);
      assert AllSortings(rank, ascending, rows, answers);
    }
  }

  lemma {:induction false} DifferentMeansOnce(rows: seq<Row>, x: Row)
    requires forall i, j | 0 <= i < j < |rows| :: rows[i] != rows[j]
    ensures multiset(rows)[x] <= 1
  {
    if rows != [] {
      DifferentMeansOnce(rows[1..], x);
      assert rows == [rows[0]] + rows[1..];
      if x == rows[0] {
        assert x !in rows[1..];
      }
    }
  }

  lemma {:induction false} OnceMeansDifferent(rows: seq<Row>)
    requires forall x :: multiset(rows)[x] <= 1
    ensures forall i, j | 0 <= i < j < |rows| :: rows[i] != rows[j]
  {
    if rows != [] {
      assert rows == [rows[0]] + rows[1..];
      forall x ensures multiset(rows[1..])[x] <= 1 {
        assert multiset(rows)[x] <= 1;
      }
      OnceMeansDifferent(rows[1..]);
      assert rows[0] !in rows[1..] by {
        assert multiset(rows)[rows[0]] <= 1;
      }
    }
  }

  /** The unique index sees to it that the rows found are pairwise different, however sorted. */
  lemma StoredRowsDiffer(rank: Row -> int, ascending: bool, f: RequestFilter, rows: seq<Row>, out: seq<Row>)
    requires UniquePairs(seq(|rows|, i requires 0 <= i < |rows| => rows[i].request))
    requires IsSorting(rank, ascending, Selected(f, rows), out)
    ensures forall i, j | 0 <= i < j < |out| :: out[i] != out[j]
  {
    var requests := seq(|rows|, i requires 0 <= i < |rows| => rows[i].request);
    forall i, j | 0 <= i < j < |rows| ensures rows[i] != rows[j] {
      assert requests[i] != requests[j];
    }
    forall x ensures multiset(out)[x] <= 1 {
      DifferentMeansOnce(rows, x);
      WhereCounts(rows, y => Wanted(f, y), x);
    }
    OnceMeansDifferent(out);
  }

  /** With a tie it need not: two queries may each show the same row, and the other one never. */
  lemma TiesCanHideRows(rank: Row -> int, ascending: bool, a: Row, b: Row)
    requires a != b && rank(a) == rank(b)
    ensures var first, second := [a, b], [b, a];
            && IsSorting(rank, ascending, [a, b], first) && IsSorting(rank, ascending, [a, b], second)
            && PageCount(2, 1) == 2
            && PageItems(first, 1, 1) + PageItems(second, 2, 1) == [a, a]
  {
    assert multiset([b, a]) == multiset([a, b]);
  }

  /** Which rows are selected, condition by condition; bounds are included. */
  lemma SelectedMeaning(f: RequestFilter, rows: seq<Row>, x: Row)
    ensures x in Selected(f, rows)
            <==> && x in rows
                 && (match f.userId case None => true case Some(id) => id == "" || id == x.request.userId)
                 && (match f.eventId case None => true case Some(id) => id == "" || id == x.request.eventId)
                 && (match f.status case None => true case Some(status) => status == x.request.status)
                 && (match f.startDate case None => true case Some(from) => !(x.createdAt < from))
                 && (match f.endDate case None => true case Some(to) => !(to < x.createdAt))
  {
    WhereMembers(rows, y => Wanted(f, y));
  }

  /** Rows are selected without changing their order. */
  lemma {:induction false} WhereSplits(a: seq<Row>, b: seq<Row>, p: Row -> bool)
    ensures Where(a + b, p) == Where(a, p) + Where(b, p)
  {
    if a == [] {
      assert a + b == b;
    } else {
      WhereSplits(a[1..], b, p);
      assert (a + b)[1..] == a[1..] + b;
    }
  }

  /** The pages of a user hold that user's rows alone, unless the user is the empty text. */
  lemma OwnRowsOnly(f: RequestFilter, userId: string, rows: seq<Row>, rank: Row -> int, ascending: bool, out: seq<Row>)
    requires IsSorting(rank, ascending, Selected(f.(userId := Some(userId)), rows), out)
    ensures userId != "" ==> forall x <- out :: x.request.userId == userId
    ensures userId == "" ==> multiset(out) == multiset(Selected(f.(userId := None), rows))
  {
    var g := f.(userId := Some(userId));
    WhereMembers(rows, x => Wanted(g, x));
    forall x | x in out ensures x in Selected(g, rows) {
      assert x in multiset(out);
    }
    if userId == "" {
      var h := f.(userId := None);
      WhereAgrees(rows, x => Wanted(g, x), x => Wanted(h, x));
    }
  }
}
