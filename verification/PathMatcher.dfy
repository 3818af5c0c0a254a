/**
 api-gateway-server/src/gateway/utils/path-matcher.util.ts: compiling a route pattern such as
 `users/:id/roles` into a regular expression by two textual rewrites, and matching with it.
 */
module PathMatcher {
  import opened Prelude
  import opened Regex

  // ---------------------------------------------------------------- the two rewrites

  /** Length of the longest slash-free start of `s`. */
  function SlashAt(s: string): (n: nat)
    ensures n <= |s|
    ensures '/' !in s[..n]
    ensures n < |s| ==> s[n] == '/'
  {
    if s == "" || s[0] == '/' then 0
    else
      var n := SlashAt(s[1..]);
      assert s[..n + 1] == [s[0]] + s[1..][..n];
      n + 1
  }

  /** `replace(/\//g, '\\/')`: every slash gains a backslash. */
  function EscapeSlashes(s: string): string {
    if s == "" then ""
    else (if s[0] == '/' then "\\/" else [s[0]]) + EscapeSlashes(s[1..])
  }

  const CAPTURE_GROUP := "([^\\/]+)"

  /** A colon with at least one non-slash character after it starts a parameter. */
  predicate ParamStarts(s: string) {
    |s| > 1 && s[0] == ':' && s[1] != '/'
  }

  /** `replace(/:([^\/]+)/g, ...)`: every parameter becomes a capture group. */
  function ReplaceParams(s: string): string {
    if s == "" then ""
    else if ParamStarts(s) then CAPTURE_GROUP + ReplaceParams(s[1 + SlashAt(s[1..])..])
    else [s[0]] + ReplaceParams(s[1..])
  }

  function PathToRegex(pattern: string): string {
    "^" + ReplaceParams(EscapeSlashes(pattern)) + "$"
  }

  /** `pattern.match(/:([^\/]+)/g)` without the colons: parameter names, left to right. */
  function ParamNames(s: string): seq<string> {
    if s == "" then []
    else if ParamStarts(s) then
      var n := SlashAt(s[1..]);
      [s[1..1 + n]] + ParamNames(s[1 + n..])
    else ParamNames(s[1..])
  }

  // ---------------------------------------------------------------- matchPath

  /**
   Unmodelled: the pattern's expression lies outside the subset of module Regex, so this
   model does not say what the engine would answer.
   */
  datatype MatchOutcome = NotMatched | Matched(params: map<string, string>) | Unmodelled

  /** The one name under which an ordinary JavaScript object stores no text. */
  const PROTO := "__proto__"

  /** `params[name] = value` on an ordinary object. */
  function Assigned(params: map<string, string>, name: string, value: string): map<string, string> {
    if name == PROTO then params else params[name := value]
  }

  /** The assignments over the names in order; a repeated name keeps its last value. */
  function BuildParams(names: seq<string>, values: seq<string>): map<string, string>
    requires |names| <= |values|
  {
    if names == [] then map[]
    else
      var n := |names| - 1;
      Assigned(BuildParams(names[..n], values), names[n], values[n])
  }

  function MatchResult(pattern: string, path: string): MatchOutcome {
    match Compile(PathToRegex(pattern))
    case None => Unmodelled
    case Some(pieces) =>
      match Exec(pieces, path)
      case None => NotMatched
      case Some(values) =>
        if |ParamNames(pattern)| > |values| then Unmodelled
        else Matched(BuildParams(ParamNames(pattern), values))
  }

  method MatchPath(pattern: string, path: string) returns (r: MatchOutcome)
    ensures r == MatchResult(pattern, path)
  {
    var paramNames := ParamNames(pattern);
    var regex := Compile(PathToRegex(pattern));
    if regex.None? {
      return Unmodelled;
    }
    var found := Exec(regex.value, path);
    if found.None? {
      return NotMatched;
    }
    var paramValues := found.value;
    if |paramNames| > |paramValues| {
      return Unmodelled;
    }
    var params: map<string, string> := map[];
    var index := 0;
    while index < |paramNames|
      invariant index <= |paramNames|
      invariant params == BuildParams(paramNames[..index], paramValues)
    {
      assert paramNames[..index + 1][..index] == paramNames[..index];
      params := Assigned(params, paramNames[index], paramValues[index]);
      index := index + 1;
    }
    assert paramNames[..index] == paramNames;
    return Matched(params);
  }

  // ---------------------------------------------------------------- segment-wise meaning

  /** One path segment of a pattern: literal text, then perhaps a parameter to its end. */
  datatype Segment = Segment(prefix: string, param: Option<string>)

  /** `s` cut at its slashes; always at least one part. */
  function Split(s: string): (parts: seq<string>)
    ensures parts != []
    ensures forall t <- parts :: '/' !in t
  {
    var n := SlashAt(s);
    if n == |s| then [s] else [s[..n]] + Split(s[n + 1..])
  }

  function Join(parts: seq<string>): string
    requires parts != []
  {
    if |parts| == 1 then parts[0] else parts[0] + "/" + Join(parts[1..])
  }

  function ColonAt(s: string): (n: nat)
    ensures n <= |s|
    ensures ':' !in s[..n]
    ensures n < |s| ==> s[n] == ':'
  {
    if s == "" || s[0] == ':' then 0
    else
      var n := ColonAt(s[1..]);
      assert s[..n + 1] == [s[0]] + s[1..][..n];
      n + 1
  }

  function ParseSegment(text: string): Segment {
    var n := ColonAt(text);
    if n == |text| then Segment(text, None) else Segment(text[..n], Some(text[n + 1..]))
  }

  function ParseSegments(parts: seq<string>): (segs: seq<Segment>)
    ensures |segs| == |parts|
    ensures forall i | 0 <= i < |parts| :: segs[i] == ParseSegment(parts[i])
  {
    seq(|parts|, i requires 0 <= i < |parts| => ParseSegment(parts[i]))
  }

  function Segments(pattern: string): (segs: seq<Segment>)
    ensures segs != []
  {
    ParseSegments(Split(pattern))
  }

  /** Literal text without regex metacharacters, and a name without slashes. */
  predicate PlainSegment(g: Segment) {
    && (forall c <- g.prefix :: !IsSyntaxChar(c) && c != '/' && c != ':')
    && (g.param.Some? ==> '/' !in g.param.value)
  }

  /** ... where a colon with nothing after it may not close the pattern. */
  predicate PlainSegments(segs: seq<Segment>) {
    && segs != []
    && (forall i | 0 <= i < |segs| :: PlainSegment(segs[i]))
    && segs[|segs| - 1].param != Some("")
  }

  predicate AllNamed(segs: seq<Segment>) {
    forall i | 0 <= i < |segs| :: segs[i].param != Some("")
  }

  /** Literals free of metacharacters and parameters that may lack a name. */
  predicate Compilable(pattern: string) {
    PlainSegments(Segments(pattern))
  }

  /** ... and every parameter has a name. */
  predicate WellFormed(pattern: string) {
    Compilable(pattern) && AllNamed(Segments(pattern))
  }

  function SegmentText(g: Segment): string {
    g.prefix + (if g.param.Some? then ":" + g.param.value else "")
  }

  function Render(segs: seq<Segment>): string
    requires segs != []
  {
    if |segs| == 1 then SegmentText(segs[0])
    else SegmentText(segs[0]) + "/" + Render(segs[1..])
  }

  /** Every parameter's name, the empty ones included: one for each capture. */
  function Names(segs: seq<Segment>): seq<string> {
    if segs == [] then []
    else (if segs[0].param.Some? then [segs[0].param.value] else []) + Names(segs[1..])
  }

  /** The names that `matchPath` sees. */
  function ProperNames(segs: seq<Segment>): (names: seq<string>)
    ensures |names| <= |Names(segs)|
    ensures AllNamed(segs) ==> names == Names(segs)
  {
    if segs == [] then []
    else
      assert AllNamed(segs) ==> AllNamed(segs[1..]);
      (if segs[0].param.Some? && segs[0].param.value != "" then [segs[0].param.value] else [])
      + ProperNames(segs[1..])
  }

  /** A literal segment accepts itself; a parameter accepts any non-empty remainder. */
  predicate AcceptsSegment(g: Segment, text: string) {
    match g.param
    case None => text == g.prefix
    case Some(_) => g.prefix < text
  }

  predicate Accepts(segs: seq<Segment>, parts: seq<string>) {
    |segs| == |parts| && forall i | 0 <= i < |segs| :: AcceptsSegment(segs[i], parts[i])
  }

  /** What a segment's parameter stands for, if it has one. */
  function CapturedBy(g: Segment, text: string): seq<string>
    requires AcceptsSegment(g, text)
  {
    if g.param.Some? then [text[|g.prefix|..]] else []
  }

  /** What the parameters of an accepted path stand for, left to right. */
  function Captures(segs: seq<Segment>, parts: seq<string>): seq<string>
    requires Accepts(segs, parts)
  {
    if segs == [] then []
    else
      assert AcceptsSegment(segs[0], parts[0]);
      CapturedBy(segs[0], parts[0]) + Captures(segs[1..], parts[1..])
  }
}
