/**
 api-gateway-server/src/gateway/gateway.service.ts: the sorted route table and the four-tier
 search that picks the route for a request. `toUpperCase` is a parameter (any function).
 */
module Gateway {
  import opened Prelude
  import opened PathMatcher
  import opened PathLanguage
  import opened PathRoundTrip

  datatype Route = Route(path: string, targetUrl: string, methods: Option<seq<string>>, requireAuth: bool)

  datatype Resolution =
    | NotFound
    | Found(route: Route)
    | MethodMismatch(route: Route, allowedMethods: seq<string>)

  /** A request: its path without the leading slash, and its method as sent. */
  datatype Request = Request(path: string, verb: string)

  datatype Tier = Exact | Pattern | Prefix | AnyMethod

  predicate Admits(upper: string -> string, q: Request, r: Route) {
    r.methods.None? || r.methods.value == []
    || exists i | 0 <= i < |r.methods.value| :: upper(r.methods.value[i]) == upper(q.verb)
  }

  predicate PathMatches(r: Route, path: string) {
    MatchResult(r.path, path).Matched?
  }

  /** `r` is a candidate for `q` in this tier of the search. */
  predicate Hits(t: Tier, upper: string -> string, q: Request, r: Route) {
    match t
    case Exact => r.path == q.path && Admits(upper, q, r)
    case Pattern => Admits(upper, q, r) && PathMatches(r, q.path)
    case Prefix => r.path <= q.path && Admits(upper, q, r)
    case AnyMethod => r.path == q.path || PathMatches(r, q.path)
  }

  function Candidates(t: Tier, upper: string -> string, q: Request, rs: seq<Route>): seq<Route> {
    if rs == [] then []
    else (if Hits(t, upper, q, rs[0]) then [rs[0]] else []) + Candidates(t, upper, q, rs[1..])
  }

  // ---------------------------------------------------------------- sorting

  predicate SortedByLength(rs: seq<Route>) {
    forall i, j | 0 <= i < j < |rs| :: |rs[i].path| >= |rs[j].path|
  }

  /** `r` placed in front of the first route that is not longer. */
  function Insert(r: Route, rs: seq<Route>): seq<Route> {
    if rs == [] || |r.path| >= |rs[0].path| then [r] + rs
    else [rs[0]] + Insert(r, rs[1..])
  }

  /** `sort((a, b) => b.path.length - a.path.length)`, which is stable. */
  function SortByLength(rs: seq<Route>): seq<Route> {
    if rs == [] then [] else Insert(rs[0], SortByLength(rs[1..]))
  }

  function OfLength(n: nat, rs: seq<Route>): seq<Route> {
    if rs == [] then []
    else (if |rs[0].path| == n then [rs[0]] else []) + OfLength(n, rs[1..])
  }

  lemma {:induction false} InsertMembers(r: Route, rs: seq<Route>)
    ensures multiset(Insert(r, rs)) == multiset{r} + multiset(rs)
    ensures forall x :: x in Insert(r, rs) <==> x == r || x in rs
  {
    if rs != [] && |r.path| < |rs[0].path| {
      InsertMembers(r, rs[1..]);
      assert rs == [rs[0]] + rs[1..];
    }
  }

  lemma {:induction false} InsertSorts(r: Route, rs: seq<Route>)
    requires SortedByLength(rs)
    ensures SortedByLength(Insert(r, rs))
  {
    if rs != [] && |r.path| < |rs[0].path| {
      InsertSorts(r, rs[1..]);
      InsertMembers(r, rs[1..]);
      forall x | x in Insert(r, rs[1..]) ensures |x.path| <= |rs[0].path| {}
    }
  }

  lemma {:induction false} InsertKeepsOrder(r: Route, rs: seq<Route>, n: nat)
    requires SortedByLength(rs)
    ensures OfLength(n, Insert(r, rs)) == OfLength(n, [r]) + OfLength(n, rs)
  {
    if rs == [] || |r.path| >= |rs[0].path| {
      assert ([r] + rs)[1..] == rs;
    } else {
      InsertKeepsOrder(r, rs[1..], n);
      assert ([rs[0]] + Insert(r, rs[1..]))[1..] == Insert(r, rs[1..]);
      if |r.path| == n {
        assert |rs[0].path| != n;
      }
    }
  }

  lemma {:induction false} SortSorts(rs: seq<Route>)
    ensures SortedByLength(SortByLength(rs))
    ensures multiset(SortByLength(rs)) == multiset(rs)
  {
    if rs != [] {
      SortSorts(rs[1..]);
      InsertSorts(rs[0], SortByLength(rs[1..]));
      InsertMembers(rs[0], SortByLength(rs[1..]));
      assert rs == [rs[0]] + rs[1..];
    }
  }

  lemma {:induction false} SortKeepsOrder(rs: seq<Route>, n: nat)
    ensures OfLength(n, SortByLength(rs)) == OfLength(n, rs)
  {
    if rs != [] {
      SortKeepsOrder(rs[1..], n);
      SortSorts(rs[1..]);
      InsertKeepsOrder(rs[0], SortByLength(rs[1..]), n);
    }
  }

  /** Sorting orders by length, loses and invents nothing, and keeps equal lengths in order. */
  lemma SortIsStable(rs: seq<Route>)
    ensures SortedByLength(SortByLength(rs))
    ensures multiset(SortByLength(rs)) == multiset(rs)
    ensures forall n: nat :: OfLength(n, SortByLength(rs)) == OfLength(n, rs)
  {
    SortSorts(rs);
    forall n: nat ensures OfLength(n, SortByLength(rs)) == OfLength(n, rs) {
      SortKeepsOrder(rs, n);
    }
  }

  lemma {:induction false} OfLengthMembers(n: nat, rs: seq<Route>)
    ensures forall r :: r in OfLength(n, rs) <==> r in rs && |r.path| == n
  {
    if rs != [] {
      OfLengthMembers(n, rs[1..]);
      assert rs == [rs[0]] + rs[1..];
    }
  }

  /** There is only one stable sorting by length: any engine's stable sort gives this table. */
  lemma {:induction false} StableSortUnique(a: seq<Route>, b: seq<Route>)
    requires SortedByLength(a) && SortedByLength(b)
    requires forall n: nat :: OfLength(n, a) == OfLength(n, b)
    ensures a == b
  {
    if a == [] {
      forall r ensures r !in b {
        OfLengthMembers(|r.path|, b);
        assert OfLength(|r.path|, a) == OfLength(|r.path|, b);
      }
    } else {
      var n := |a[0].path|;
      OfLengthMembers(n, a);
      OfLengthMembers(n, b);
      assert a[0] in OfLength(n, b);
      OfLengthMembers(|b[0].path|, a);
      OfLengthMembers(|b[0].path|, b);
      assert b[0] in OfLength(|b[0].path|, a);
      assert a[0] == OfLength(n, a)[0] == OfLength(n, b)[0] == b[0];
      forall m: nat ensures OfLength(m, a[1..]) == OfLength(m, b[1..]) {
        var own := if |a[0].path| == m then [a[0]] else [];
        assert own + OfLength(m, a[1..]) == OfLength(m, a) == OfLength(m, b) == own + OfLength(m, b[1..]);
        assert OfLength(m, a[1..]) == (own + OfLength(m, a[1..]))[|own|..];
        assert OfLength(m, b[1..]) == (own + OfLength(m, b[1..]))[|own|..];
      }
      StableSortUnique(a[1..], b[1..]);
    }
  }

  /** Sorting a table that is already sorted leaves it alone. */
  lemma {:induction false} SortedIsFixed(rs: seq<Route>)
    requires SortedByLength(rs)
    ensures SortByLength(rs) == rs
  {
    SortIsStable(rs);
    StableSortUnique(SortByLength(rs), rs);
  }

  lemma {:induction false} CandidatesMembers(t: Tier, upper: string -> string, q: Request, rs: seq<Route>)
    ensures forall r :: r in Candidates(t, upper, q, rs) <==> r in rs && Hits(t, upper, q, r)
  {
    if rs != [] {
      CandidatesMembers(t, upper, q, rs[1..]);
      assert rs == [rs[0]] + rs[1..];
    }
  }

  lemma {:induction false} CandidatesSorted(t: Tier, upper: string -> string, q: Request, rs: seq<Route>)
    requires SortedByLength(rs)
    ensures SortedByLength(Candidates(t, upper, q, rs))
    ensures forall r :: r in Candidates(t, upper, q, rs) <==> r in rs && Hits(t, upper, q, r)
  {
    CandidatesMembers(t, upper, q, rs);
    if rs != [] {
      var later := Candidates(t, upper, q, rs[1..]);
      CandidatesSorted(t, upper, q, rs[1..]);
      forall r | r in later ensures |r.path| <= |rs[0].path| {
        assert r in rs[1..];
      }
      PrependKeepsSorted(rs[0], later);
    }
  }

  lemma PrependKeepsSorted(r: Route, rs: seq<Route>)
    requires SortedByLength(rs)
    requires forall x | x in rs :: |x.path| <= |r.path|
    ensures SortedByLength([r] + rs)
  {}

  // ---------------------------------------------------------------- the search

  function Normalize(path: string): string {
    if path != "" && path[0] == '/' then path[1..] else path
  }

  function AllowedMethods(rs: seq<Route>): seq<string> {
    if rs == [] then [] else rs[0].methods.GetOr([]) + AllowedMethods(rs[1..])
  }

  function Resolve(rs: seq<Route>, upper: string -> string, path: string, verb: string): Resolution {
    var q := Request(Normalize(path), verb);
    var exact, pattern := Candidates(Exact, upper, q, rs), Candidates(Pattern, upper, q, rs);
    var prefix := SortByLength(Candidates(Prefix, upper, q, rs));
    var any := Candidates(AnyMethod, upper, q, rs);
    if exact != [] then Found(exact[0])
    else if pattern != [] then Found(pattern[0])
    else if prefix != [] then Found(prefix[0])
    else if any != [] then MethodMismatch(any[0], AllowedMethods(any))
    else NotFound
  }

  /** The first path segment in upper case, then `_SERVICE_URL`. */
  function ServiceKey(upper: string -> string, path: string): string {
    upper(Split(path)[0]) + "_SERVICE_URL"
  }

  function WithTarget(env: string -> string, upper: string -> string, r: Route): Route {
    var url := env(ServiceKey(upper, r.path));
    if url != "" then r.(targetUrl := url) else r
  }

  function WithTargets(env: string -> string, upper: string -> string, rs: seq<Route>): (out: seq<Route>)
    ensures |out| == |rs|
    ensures forall i | 0 <= i < |rs| :: out[i] == WithTarget(env, upper, rs[i])
  {
    if rs == [] then [] else [WithTarget(env, upper, rs[0])] + WithTargets(env, upper, rs[1..])
  }

  class GatewayService {
    var routes: seq<Route>

    /** `env` gives "" for a variable that is not set. */
    method SetupRoutes(allRoutes: seq<Route>, env: string -> string, upper: string -> string)
      modifies this
      ensures routes == SortByLength(WithTargets(env, upper, allRoutes))
      ensures SortedByLength(routes)
      // as many routes as declared, each with its target from the environment if one is set there
      ensures |WithTargets(env, upper, allRoutes)| == |allRoutes|
      ensures forall i | 0 <= i < |allRoutes| ::
                var r, url := allRoutes[i], env(upper(Split(allRoutes[i].path)[0]) + "_SERVICE_URL");
                WithTargets(env, upper, allRoutes)[i] == Route(r.path, if url == "" then r.targetUrl else url, r.methods, r.requireAuth)
    {
      routes := WithTargets(env, upper, allRoutes);
      routes := SortByLength(routes);
      SortIsStable(WithTargets(env, upper, allRoutes));
    }

    method Filtered(t: Tier, upper: string -> string, q: Request) returns (out: seq<Route>)
      ensures out == Candidates(t, upper, q, routes)
    {
      out := [];
      var k := |routes|;
      while k > 0
        invariant 0 <= k <= |routes|
        invariant out == Candidates(t, upper, q, routes[k..])
      {
        k := k - 1;
        assert routes[k..][1..] == routes[k + 1..];
        if Hits(t, upper, q, routes[k]) {
          out := [routes[k]] + out;
        }
      }
      assert routes[0..] == routes;
    }

    method GetRouteConfigForPath(path: string, verb: string, upper: string -> string) returns (r: Resolution)
      ensures r == Resolve(routes, upper, path, verb)
    {
      var normalizedPath := Normalize(path);
      var q := Request(normalizedPath, verb);

      var exactMatches := Filtered(Exact, upper, q);
      if |exactMatches| > 0 {
        return Found(exactMatches[0]);
      }

      var i := 0;
      while i < |routes|
        invariant i <= |routes|
        invariant Candidates(Pattern, upper, q, routes) == Candidates(Pattern, upper, q, routes[i..])
      {
        assert routes[i..][1..] == routes[i + 1..];
        if Admits(upper, q, routes[i]) {
          var matchResult := MatchPath(routes[i].path, normalizedPath);
          if matchResult.Matched? {
            return Found(routes[i]);
          }
        }
        i := i + 1;
      }

      var prefixRoutes := Filtered(Prefix, upper, q);
      prefixRoutes := SortByLength(prefixRoutes);
      if |prefixRoutes| > 0 {
        return Found(prefixRoutes[0]);
      }

      var pathMatches := Filtered(AnyMethod, upper, q);
      if |pathMatches| > 0 {
        return MethodMismatch(pathMatches[0], AllowedMethods(pathMatches));
      }
      return NotFound;
    }
  }

  // ---------------------------------------------------------------- what the search finds

  /** Declared at `i`, a candidate, at least as long as every other, the first of its length. */
  ghost predicate WinsAt(all: seq<Route>, t: Tier, upper: string -> string, q: Request, w: Route, i: nat) {
    && i < |all| && all[i] == w && Hits(t, upper, q, w)
    && forall j | 0 <= j < |all| && Hits(t, upper, q, all[j]) ::
         |all[j].path| < |w.path| || (|all[j].path| == |w.path| && i <= j)
  }

  ghost predicate NoCandidate(all: seq<Route>, t: Tier, upper: string -> string, q: Request) {
    forall j | 0 <= j < |all| :: !Hits(t, upper, q, all[j])
  }

  lemma CandidatesCons(t: Tier, upper: string -> string, q: Request, r: Route, rs: seq<Route>)
    ensures Candidates(t, upper, q, [r] + rs)
         == if Hits(t, upper, q, r) then [r] + Candidates(t, upper, q, rs) else Candidates(t, upper, q, rs)
  {
    assert ([r] + rs)[1..] == rs;
  }

  lemma InsertInFront(r: Route, rs: seq<Route>)
    requires forall x | x in rs :: |x.path| <= |r.path|
    ensures Insert(r, rs) == [r] + rs
  {
    assert rs == [] || rs[0] in rs;
  }

  lemma {:induction false} CandidatesOfInsert(t: Tier, upper: string -> string, q: Request, r: Route, rs: seq<Route>)
    requires SortedByLength(rs)
    ensures var before := Candidates(t, upper, q, rs);
            Candidates(t, upper, q, Insert(r, rs)) == if Hits(t, upper, q, r) then Insert(r, before) else before
  {
    if rs == [] || |r.path| >= |rs[0].path| {
      CandidatesCons(t, upper, q, r, rs);
      CandidatesSorted(t, upper, q, rs);
      assert forall x | x in rs :: |x.path| <= |r.path|;
      InsertInFront(r, Candidates(t, upper, q, rs));
    } else {
      var later := Candidates(t, upper, q, rs[1..]);
      CandidatesOfInsert(t, upper, q, r, rs[1..]);
      CandidatesCons(t, upper, q, rs[0], Insert(r, rs[1..]));
      assert Candidates(t, upper, q, rs) == if Hits(t, upper, q, rs[0]) then [rs[0]] + later else later;
      InsertBehind(r, rs[0], later);
    }
  }

  lemma InsertBehind(r: Route, longer: Route, rs: seq<Route>)
    requires |r.path| < |longer.path|
    ensures Insert(r, [longer] + rs) == [longer] + Insert(r, rs)
  {
    assert ([longer] + rs)[1..] == rs;
  }

  /** The first candidate of the sorted table is the first longest one of the declared table. */
  lemma {:induction false} FirstCandidateWins(all: seq<Route>, t: Tier, upper: string -> string, q: Request)
    returns (i: nat)
    ensures var hits := Candidates(t, upper, q, SortByLength(all));
            if hits == [] then NoCandidate(all, t, upper, q) else WinsAt(all, t, upper, q, hits[0], i)
  {
    if all == [] {
      i := 0;
    } else {
      var k := FirstCandidateWins(all[1..], t, upper, q);
      SortIsStable(all[1..]);
      CandidatesOfInsert(t, upper, q, all[0], SortByLength(all[1..]));
      i := PrependedWins(all, t, upper, q, Candidates(t, upper, q, SortByLength(all[1..])), k);
    }
  }

  /** One more route declared in front. */
  lemma PrependedWins(all: seq<Route>, t: Tier, upper: string -> string, q: Request, later: seq<Route>, k: nat)
    returns (i: nat)
    requires all != []
    requires if later == [] then NoCandidate(all[1..], t, upper, q) else WinsAt(all[1..], t, upper, q, later[0], k)
    ensures var hits := if Hits(t, upper, q, all[0]) then Insert(all[0], later) else later;
            if hits == [] then NoCandidate(all, t, upper, q) else WinsAt(all, t, upper, q, hits[0], i)
  {
    assert forall j | 0 < j < |all| :: all[j] == all[1..][j - 1];
    i := if Hits(t, upper, q, all[0]) && (later == [] || |all[0].path| >= |later[0].path|) then 0 else k + 1;
  }

  /**
   What resolution returns, in terms of the table as declared: the first non-empty tier
   decides; within it the longest path wins, and the earliest declared among equals. The
   prefix tier's own sort changes nothing.
   */
  lemma ResolutionMeaning(all: seq<Route>, upper: string -> string, path: string, verb: string)
    ensures var q, rs := Request(Normalize(path), verb), SortByLength(all);
            && SortByLength(Candidates(Prefix, upper, q, rs)) == Candidates(Prefix, upper, q, rs)
            && match Resolve(rs, upper, path, verb)
               case Found(w) =>
                 || (exists i :: WinsAt(all, Exact, upper, q, w, i))
                 || (NoCandidate(all, Exact, upper, q) && exists i :: WinsAt(all, Pattern, upper, q, w, i))
                 || (NoCandidate(all, Exact, upper, q) && NoCandidate(all, Pattern, upper, q)
                     && exists i :: WinsAt(all, Prefix, upper, q, w, i))
               case MethodMismatch(w, _) =>
                 && NoCandidate(all, Exact, upper, q) && NoCandidate(all, Pattern, upper, q)
                 && NoCandidate(all, Prefix, upper, q) && exists i :: WinsAt(all, AnyMethod, upper, q, w, i)
               case NotFound =>
                 && NoCandidate(all, Prefix, upper, q) && NoCandidate(all, AnyMethod, upper, q)
  {
    var q, rs := Request(Normalize(path), verb), SortByLength(all);
    SortIsStable(all);
    CandidatesSorted(Prefix, upper, q, rs);
    SortedIsFixed(Candidates(Prefix, upper, q, rs));
    var i0 := FirstCandidateWins(all, Exact, upper, q);
    var i1 := FirstCandidateWins(all, Pattern, upper, q);
    var i2 := FirstCandidateWins(all, Prefix, upper, q);
    var i3 := FirstCandidateWins(all, AnyMethod, upper, q);
  }

  lemma {:induction false} AllowedMethodsMembers(rs: seq<Route>)
    ensures forall m :: m in AllowedMethods(rs) <==> exists r :: r in rs && r.methods.Some? && m in r.methods.value
  {
    if rs != [] {
      AllowedMethodsMembers(rs[1..]);
      assert rs == [rs[0]] + rs[1..];
      forall m ensures m in AllowedMethods(rs) <==> exists r :: r in rs && r.methods.Some? && m in r.methods.value {
        if m in rs[0].methods.GetOr([]) {
          assert rs[0] in rs;
        }
        if m in AllowedMethods(rs[1..]) {
          var r :| r in rs[1..] && r.methods.Some? && m in r.methods.value;
          assert r in rs;
        }
      }
    }
  }

  /** The allowed methods come route by route, each route's in its own order, repeats included. */
  lemma {:induction false} AllowedMethodsInOrder(a: seq<Route>, b: seq<Route>)
    ensures AllowedMethods(a + b) == AllowedMethods(a) + AllowedMethods(b)
  {
    if a == [] {
      assert a + b == b;
    } else {
      AllowedMethodsInOrder(a[1..], b);
      assert (a + b)[1..] == a[1..] + b && (a + b)[0] == a[0];
      ConcatAssoc(a[0].methods.GetOr([]), AllowedMethods(a[1..]), AllowedMethods(b));
    }
  }

  lemma AllowedMethodsOfOne(r: Route)
    ensures AllowedMethods([r]) == if r.methods.Some? then r.methods.value else []
  {
    assert [r][1..] == [];
  }

  lemma CandidatesOfSorted(all: seq<Route>, t: Tier, upper: string -> string, q: Request)
    ensures forall r :: r in Candidates(t, upper, q, SortByLength(all)) <==> r in all && Hits(t, upper, q, r)
  {
    SortSorts(all);
    CandidatesSorted(t, upper, q, SortByLength(all));
    forall r ensures r in SortByLength(all) <==> r in all {
      assert r in multiset(SortByLength(all)) <==> r in multiset(all);
    }
  }

  /** Without an exact or pattern candidate, no route that matches the path admits the method. */
  lemma NoneAdmits(all: seq<Route>, upper: string -> string, q: Request)
    requires Candidates(Exact, upper, q, SortByLength(all)) == []
    requires Candidates(Pattern, upper, q, SortByLength(all)) == []
    ensures forall r | r in all && Hits(AnyMethod, upper, q, r) :: !Admits(upper, q, r)
  {
    CandidatesOfSorted(all, Exact, upper, q);
    CandidatesOfSorted(all, Pattern, upper, q);
    assert forall r :: r !in Candidates(Exact, upper, q, SortByLength(all));
    assert forall r :: r !in Candidates(Pattern, upper, q, SortByLength(all));
  }

  /** The methods of routes none of which admits the request's. */
  lemma AllowedAreOthers(rs: seq<Route>, upper: string -> string, q: Request)
    requires rs != [] && forall r | r in rs :: !Admits(upper, q, r)
    ensures AllowedMethods(rs) != []
    ensures forall m | m in AllowedMethods(rs) :: upper(m) != upper(q.verb)
  {
    AllowedMethodsMembers(rs);
    assert rs[0] in rs && !Admits(upper, q, rs[0]);
    assert rs[0].methods.value[0] in AllowedMethods(rs);
    forall m | m in AllowedMethods(rs) ensures upper(m) != upper(q.verb) {
      var r :| r in rs && r.methods.Some? && m in r.methods.value;
      assert !Admits(upper, q, r);
    }
  }

  /**
   A method mismatch means what its name says: some route matches the path, no route that
   matches the path (exactly or by pattern) admits the method, and the allowed methods are
   those of the matching routes: at least one, none equal to the request's in any letter case.
   */
  lemma {:induction false} MismatchMeaning(all: seq<Route>, upper: string -> string, path: string, verb: string)
    requires Resolve(SortByLength(all), upper, path, verb).MethodMismatch?
    ensures var q, res := Request(Normalize(path), verb), Resolve(SortByLength(all), upper, path, verb);
            && (exists r :: r in all && Hits(AnyMethod, upper, q, r))
            && (forall r | r in all && (r.path == q.path || PathMatches(r, q.path)) :: !Admits(upper, q, r))
            && res.allowedMethods != []
            && (forall m :: m in res.allowedMethods <==>
                  exists r :: r in all && Hits(AnyMethod, upper, q, r) && r.methods.Some? && m in r.methods.value)
            && (forall m | m in res.allowedMethods :: upper(m) != upper(verb))
  {
    var q := Request(Normalize(path), verb);
    var any := Candidates(AnyMethod, upper, q, SortByLength(all));
    NoneAdmits(all, upper, q);
    CandidatesOfSorted(all, AnyMethod, upper, q);
    AllowedMethodsMembers(any);
    assert any[0] in any;
    AllowedAreOthers(any, upper, q);
  }

  /**
   With compilable patterns, being matched by pattern is segment-wise and includes being equal,
   so the equality test beside the pattern test in the last tier never decides anything.
   */
  lemma PatternTierMeaning(upper: string -> string, q: Request, r: Route)
    requires Compilable(r.path)
    ensures PathMatches(r, q.path) <==> Accepts(Segments(r.path), Split(q.path))
    ensures Hits(AnyMethod, upper, q, r) <==> PathMatches(r, q.path)
    ensures Hits(Exact, upper, q, r) ==> Hits(Pattern, upper, q, r)
  {
    MatchedMeansAccepted(r.path, q.path);
    if r.path == q.path {
      MatchesItself(r.path);
    }
  }

  lemma MatchedMeansAccepted(pattern: string, path: string)
    requires Compilable(pattern)
    ensures MatchResult(pattern, path).Matched? <==> Accepts(Segments(pattern), Split(path))
  {
    MatchPathMeaning(pattern, path);
  }

  // ---------------------------------------------------------------- the same, written out

  /** No methods are listed, or one of them is the request's in some letter case. */
  ghost predicate Serves(upper: string -> string, verb: string, r: Route) {
    r.methods.Some? && |r.methods.value| > 0 ==> exists m <- r.methods.value :: upper(m) == upper(verb)
  }

  /** How a route may match a path, strongest first. */
  ghost predicate ByEquality(upper: string -> string, path: string, verb: string, r: Route) {
    Serves(upper, verb, r) && r.path == path
  }

  ghost predicate ByPattern(upper: string -> string, path: string, verb: string, r: Route) {
    Serves(upper, verb, r) && MatchResult(r.path, path).Matched?
  }

  ghost predicate ByPrefix(upper: string -> string, path: string, verb: string, r: Route) {
    Serves(upper, verb, r) && |r.path| <= |path| && path[..|r.path|] == r.path
  }

  /** `w`, declared at `i`, is the first of the longest of all the routes for which `p` holds. */
  ghost predicate FirstLongest(all: seq<Route>, p: Route -> bool, w: Route, i: nat) {
    && i < |all| && all[i] == w && p(w)
    && (forall j | 0 <= j < |all| && p(all[j]) :: |all[j].path| <= |w.path|)
    && (forall j | 0 <= j < i && p(all[j]) :: |all[j].path| < |w.path|)
  }

  ghost predicate Nobody(all: seq<Route>, p: Route -> bool) {
    forall j | 0 <= j < |all| :: !p(all[j])
  }

  lemma AdmitsMeaning(upper: string -> string, q: Request, r: Route)
    ensures Admits(upper, q, r) <==> Serves(upper, q.verb, r)
  {
    if r.methods.Some? && Admits(upper, q, r) && r.methods.value != [] {
      var i :| 0 <= i < |r.methods.value| && upper(r.methods.value[i]) == upper(q.verb);
      assert r.methods.value[i] in r.methods.value;
    }
  }

  lemma HitsMeaning(upper: string -> string, q: Request, r: Route)
    ensures Hits(Exact, upper, q, r) <==> ByEquality(upper, q.path, q.verb, r)
    ensures Hits(Pattern, upper, q, r) <==> ByPattern(upper, q.path, q.verb, r)
    ensures Hits(Prefix, upper, q, r) <==> ByPrefix(upper, q.path, q.verb, r)
    ensures Hits(AnyMethod, upper, q, r) <==> r.path == q.path || MatchResult(r.path, q.path).Matched?
  {
    AdmitsMeaning(upper, q, r);
  }

  lemma TierMeaning(all: seq<Route>, t: Tier, upper: string -> string, q: Request, p: Route -> bool)
    requires forall r :: Hits(t, upper, q, r) <==> p(r)
    ensures NoCandidate(all, t, upper, q) <==> Nobody(all, p)
    ensures forall w, i :: WinsAt(all, t, upper, q, w, i) <==> FirstLongest(all, p, w, i)
  {}

  ghost function ExactTier(upper: string -> string, path: string, verb: string): Route -> bool {
    x => ByEquality(upper, path, verb, x)
  }

  ghost function PatternTier(upper: string -> string, path: string, verb: string): Route -> bool {
    x => ByPattern(upper, path, verb, x)
  }

  ghost function PrefixTier(upper: string -> string, path: string, verb: string): Route -> bool {
    x => ByPrefix(upper, path, verb, x)
  }

  /** Routes of any method. */
  ghost function AnyTier(path: string): Route -> bool {
    (x: Route) => x.path == path || MatchResult(x.path, path).Matched?
  }

  lemma TiersMean(all: seq<Route>, upper: string -> string, path: string, verb: string, t: Tier, p: Route -> bool)
    requires p == match t
                  case Exact => ExactTier(upper, path, verb)
                  case Pattern => PatternTier(upper, path, verb)
                  case Prefix => PrefixTier(upper, path, verb)
                  case AnyMethod => AnyTier(path)
    ensures NoCandidate(all, t, upper, Request(path, verb)) <==> Nobody(all, p)
    ensures forall w, i :: WinsAt(all, t, upper, Request(path, verb), w, i) <==> FirstLongest(all, p, w, i)
  {
    forall x: Route ensures Hits(t, upper, Request(path, verb), x) <==> p(x) {
      HitsMeaning(upper, Request(path, verb), x);
    }
    TierMeaning(all, t, upper, Request(path, verb), p);
  }

  /** What resolution answers for a path (without leading slash), in terms of the declared routes. */
  ghost predicate Answered(all: seq<Route>, upper: string -> string, path: string, verb: string, r: Resolution) {
    var exact, pattern := ExactTier(upper, path, verb), PatternTier(upper, path, verb);
    var prefix, any := PrefixTier(upper, path, verb), AnyTier(path);
    match r
    case Found(w) =>
      if !Nobody(all, exact) then exists i :: FirstLongest(all, exact, w, i)
      else if !Nobody(all, pattern) then exists i :: FirstLongest(all, pattern, w, i)
      else exists i :: FirstLongest(all, prefix, w, i)
    case MethodMismatch(w, _) =>
      && Nobody(all, exact) && Nobody(all, pattern) && Nobody(all, prefix)
      && exists i :: FirstLongest(all, any, w, i)
    case NotFound => Nobody(all, exact) && Nobody(all, pattern) && Nobody(all, prefix) && Nobody(all, any)
  }

  /** One tier: its first candidate in the sorted table, or nobody. */
  lemma TierAnswer(all: seq<Route>, upper: string -> string, path: string, verb: string, t: Tier, p: Route -> bool)
    requires p == match t
                  case Exact => ExactTier(upper, path, verb)
                  case Pattern => PatternTier(upper, path, verb)
                  case Prefix => PrefixTier(upper, path, verb)
                  case AnyMethod => AnyTier(path)
    ensures var hits := Candidates(t, upper, Request(path, verb), SortByLength(all));
            && (hits == [] <==> Nobody(all, p))
            && (hits != [] ==> exists i :: FirstLongest(all, p, hits[0], i))
  {
    TiersMean(all, upper, path, verb, t, p);
    var i := FirstCandidateWins(all, t, upper, Request(path, verb));
    var hits := Candidates(t, upper, Request(path, verb), SortByLength(all));
    if hits != [] {
      assert FirstLongest(all, p, hits[0], i);
      assert p(all[i]);
    }
  }

  lemma ResolveIsAnswered(all: seq<Route>, upper: string -> string, path: string, verb: string)
    requires path == "" || path[0] != '/'
    ensures Answered(all, upper, path, verb, Resolve(SortByLength(all), upper, path, verb))
  {
    ResolutionMeaning(all, upper, path, verb);
    TierAnswer(all, upper, path, verb, Exact, ExactTier(upper, path, verb));
    TierAnswer(all, upper, path, verb, Pattern, PatternTier(upper, path, verb));
    TierAnswer(all, upper, path, verb, Prefix, PrefixTier(upper, path, verb));
    TierAnswer(all, upper, path, verb, AnyMethod, AnyTier(path));
  }

  /** `x` serves the method and matches the path in one of the three ways. */
  ghost predicate Suits(upper: string -> string, path: string, verb: string, x: Route) {
    Serves(upper, verb, x) && (x.path == path || MatchResult(x.path, path).Matched? || (|x.path| <= |path| && path[..|x.path|] == x.path))
  }

  lemma AnsweredSuits(all: seq<Route>, upper: string -> string, path: string, verb: string, r: Resolution)
    requires Answered(all, upper, path, verb, r)
    ensures r.Found? ==> r.route in all && Suits(upper, path, verb, r.route)
    ensures r.Found? <==> exists x <- all :: Suits(upper, path, verb, x)
  {
    if x :| x in all && Suits(upper, path, verb, x) {
      var j :| 0 <= j < |all| && all[j] == x;
      assert ExactTier(upper, path, verb)(all[j]) || PatternTier(upper, path, verb)(all[j]) || PrefixTier(upper, path, verb)(all[j]);
    }
  }

  /**
   Which route a request gets, with every condition written out: the first of the longest routes
   that serve the method and equal the path, or else match it as patterns, or else start it. So a
   route found serves the method; and one is found if and only if some route serves the method and
   matches in one of the three ways. A leading slash makes no difference.
   */
  lemma RequestGetsRoute(all: seq<Route>, upper: string -> string, path: string, verb: string)
    requires path == "" || path[0] != '/'
    ensures var r := Resolve(SortByLength(all), upper, path, verb);
            && Resolve(SortByLength(all), upper, "/" + path, verb) == r
            && Answered(all, upper, path, verb, r)
            && (r.Found? ==> r.route in all && Suits(upper, path, verb, r.route))
            && (r.Found? <==> exists x <- all :: Suits(upper, path, verb, x))
  {
    SlashIsStripped(all, upper, path, verb);
    ResolveIsAnswered(all, upper, path, verb);
    AnsweredSuits(all, upper, path, verb, Resolve(SortByLength(all), upper, path, verb));
  }

  lemma SlashIsStripped(all: seq<Route>, upper: string -> string, path: string, verb: string)
    requires path == "" || path[0] != '/'
    ensures Resolve(SortByLength(all), upper, "/" + path, verb) == Resolve(SortByLength(all), upper, path, verb)
  {
    assert ("/" + path)[1..] == path;
  }
}
