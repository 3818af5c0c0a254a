/**
 The routes declared in api-gateway-server/src/gateway/routes, in declaration order: every
 pattern is one that the results about matching and resolution cover.
 */
module RouteTable {
  import opened Prelude
  import opened PathMatcher
  import opened PathLanguage
  import Gateway

  datatype Declared = Declared(segs: seq<Segment>, methods: seq<string>)

  function Lit(text: string): Segment {
    Segment(text, None)
  }

  function Param(name: string): Segment {
    Segment("", Some(name))
  }

  const AUTH_ROUTES := [
    Declared([Lit("auth"), Lit("register")], ["POST"]),
    Declared([Lit("auth"), Lit("login")], ["POST"]),
    Declared([Lit("auth"), Lit("refresh")], ["POST"]),
    Declared([Lit("auth"), Lit("logout")], ["POST"])]

  // game-event.routes.ts, in parts
  const EVENT_REQUEST_ROUTES := [
    Declared([Lit("event-requests"), Lit("available-events")], []),
    Declared([Lit("event-requests"), Lit("rewards")], []),
    Declared([Lit("event-requests"), Lit("eligibility"), Param("eventId")], [])]

  const HISTORY_ROUTES := [
    Declared([Lit("event-requests"), Lit("reward-requests"), Lit("history")], []),
    Declared([Lit("event-requests"), Lit("reward-requests"), Lit("history"), Lit("all")], [])]

  const EVENT_ROUTES := [
    Declared([Lit("events")], ["POST", "GET"]),
    Declared([Lit("events"), Param("id")], ["GET"]),
    Declared([Lit("events"), Param("id")], ["PUT"]),
    Declared([Lit("events"), Lit("active")], ["GET"])]

  const REWARD_ROUTES := [
    Declared([Lit("rewards")], ["GET"]),
    Declared([Lit("rewards")], ["POST"]),
    Declared([Lit("rewards"), Param("id")], ["GET"]),
    Declared([Lit("rewards"), Lit("event"), Param("eventId")], ["GET"])]

  const USER_ROUTES := [
    Declared([Lit("users")], ["GET"]),
    Declared([Lit("users"), Param("id"), Lit("roles")], ["POST"]),
    Declared([Lit("users"), Param("id"), Lit("roles"), Param("role")], ["DELETE"])]

  function AllRoutes(): seq<Declared> {
    AUTH_ROUTES + EVENT_REQUEST_ROUTES + HISTORY_ROUTES + EVENT_ROUTES + REWARD_ROUTES + USER_ROUTES
  }

  predicate IsWord(text: string) {
    forall c <- text :: 'a' <= c <= 'z' || 'A' <= c <= 'Z' || c == '-'
  }

  /** Words apart, no slashes, colons or metacharacters; named parameters. */
  predicate WordSegments(segs: seq<Segment>) {
    && segs != []
    && forall i | 0 <= i < |segs| ::
         IsWord(segs[i].prefix) && (segs[i].param.Some? ==> segs[i].param.value != "" && IsWord(segs[i].param.value))
  }

  lemma WordsArePlain(segs: seq<Segment>)
    requires WordSegments(segs)
    ensures PlainSegments(segs) && AllNamed(segs)
  {
    forall i | 0 <= i < |segs| ensures PlainSegment(segs[i]) {}
  }

  lemma AuthWords()
    ensures forall d <- AUTH_ROUTES :: WordSegments(d.segs)
  {
    assert IsWord("auth") && IsWord("register") && IsWord("login") && IsWord("refresh") && IsWord("logout");
  }

  lemma UserWords()
    ensures forall d <- USER_ROUTES :: WordSegments(d.segs)
  {
    assert IsWord("users") && IsWord("id") && IsWord("roles") && IsWord("role");
  }

  lemma EventRequestWords()
    ensures forall d <- EVENT_REQUEST_ROUTES :: WordSegments(d.segs)
  {
    assert IsWord("event-requests") && IsWord("available-events") && IsWord("rewards") && IsWord("eligibility");
    assert IsWord("eventId");
  }

  lemma HistoryWords()
    ensures forall d <- HISTORY_ROUTES :: WordSegments(d.segs)
  {
    assert IsWord("event-requests") && IsWord("reward-requests") && IsWord("history") && IsWord("all");
  }

  lemma EventWords()
    ensures forall d <- EVENT_ROUTES :: WordSegments(d.segs)
  {
    assert IsWord("events") && IsWord("id") && IsWord("active");
  }

  lemma RewardWords()
    ensures forall d <- REWARD_ROUTES :: WordSegments(d.segs)
  {
    assert IsWord("rewards") && IsWord("id") && IsWord("event") && IsWord("eventId");
  }

  /** Every declared path is well-formed and reads back as the segments it is written from. */
  lemma TableIsWellFormed()
    ensures forall d <- AllRoutes() :: d.segs != [] && WellFormed(Render(d.segs)) && Segments(Render(d.segs)) == d.segs
  {
    AuthWords();
    EventRequestWords();
    HistoryWords();
    EventWords();
    RewardWords();
    UserWords();
    forall d | d in AllRoutes()
      ensures d.segs != [] && WellFormed(Render(d.segs)) && Segments(Render(d.segs)) == d.segs
    {
      WordsArePlain(d.segs);
      SegmentsOfRender(d.segs);
    }
  }

  /** A declared route as the gateway holds it. */
  function AsRoute(d: Declared, targetUrl: string, requireAuth: bool): Gateway.Route
    requires d.segs != []
  {
    Gateway.Route(Render(d.segs), targetUrl, Some(d.methods), requireAuth)
  }

  /**
   So every route of the table, wherever it points to, matches a path exactly segment by segment,
   and being equal to a path never adds anything to matching it.
   */
  lemma TableMatchesBySegments(d: Declared, targetUrl: string, requireAuth: bool, upper: string -> string, q: Gateway.Request)
    requires d in AllRoutes()
    ensures d.segs != []
    ensures var r := AsRoute(d, targetUrl, requireAuth);
            && (Gateway.PathMatches(r, q.path) <==> Accepts(d.segs, Split(q.path)))
            && (Gateway.Hits(Gateway.AnyMethod, upper, q, r) <==> Accepts(d.segs, Split(q.path)))
            && (Gateway.Hits(Gateway.Exact, upper, q, r) ==> Gateway.Hits(Gateway.Pattern, upper, q, r))
  {
    TableIsWellFormed();
    Gateway.PatternTierMeaning(upper, q, AsRoute(d, targetUrl, requireAuth));
  }
}
