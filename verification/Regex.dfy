/**
 The part of ECMAScript regular expressions that the gateway's patterns compile to: ordinary
 characters, identity escapes, negated classes, `+`, and capture groups around one item.
 `Compile` reads the expression from its SOURCE TEXT, as `new RegExp(text)` does; a text that
 uses anything else (or is malformed) gives None.
 */
module Regex {
  import opened Prelude

  datatype CharClass = Exactly(c: char) | NoneOf(cs: string) {
    predicate Has(x: char) {
      match this
      case Exactly(c) => x == c
      case NoneOf(cs) => x !in cs
    }

    predicate HasAll(s: string) {
      forall i | 0 <= i < |s| :: Has(s[i])
    }
  }

  /** One item: a class, matched once or (with `plus`) one or more times, perhaps captured. */
  datatype Piece = Piece(cls: CharClass, plus: bool, captured: bool)

  /** The SyntaxCharacter production of ECMA-262. */
  predicate IsSyntaxChar(c: char) {
    c in "^$\\.*+?()[]{}|"
  }

  predicate IsIdentityEscape(c: char) {
    IsSyntaxChar(c) || c == '/'
  }

  // ---------------------------------------------------------------- reading the text

  /** The characters of a class up to its closing bracket, and the text after the bracket. */
  function ClassBody(s: string): (r: Option<(string, string)>)
    ensures r.Some? ==> |r.value.1| < |s|
  {
    if s == "" || s[0] == '-' || s[0] == '[' then None
    else if s[0] == ']' then Some(("", s[1..]))
    else if s[0] == '\\' then
      if |s| >= 2 && IsIdentityEscape(s[1]) then
        match ClassBody(s[2..])
        case Some((cs, rest)) => Some(([s[1]] + cs, rest))
        case None => None
      else None
    else
      match ClassBody(s[1..])
      case Some((cs, rest)) => Some(([s[0]] + cs, rest))
      case None => None
  }

  function ParseClass(s: string): (r: Option<(CharClass, string)>)
    ensures r.Some? ==> |r.value.1| < |s|
  {
    if s == "" then None
    else if s[0] == '\\' then
      if |s| >= 2 && IsIdentityEscape(s[1]) then Some((Exactly(s[1]), s[2..])) else None
    else if s[0] == '[' then
      if |s| >= 2 && s[1] == '^' then
        match ClassBody(s[2..])
        case Some((cs, rest)) => Some((NoneOf(cs), rest))
        case None => None
      else None
    else if IsSyntaxChar(s[0]) then None
    else Some((Exactly(s[0]), s[1..]))
  }

  function ParseItem(s: string, captured: bool): (r: Option<(Piece, string)>)
    ensures r.Some? ==> |r.value.1| < |s|
  {
    match ParseClass(s)
    case None => None
    case Some((cls, rest)) =>
      if rest != "" && rest[0] == '+' then Some((Piece(cls, true, captured), rest[1..]))
      else Some((Piece(cls, false, captured), rest))
  }

  function Parse(s: string): Option<seq<Piece>>
    decreases |s|
  {
    if s == "" then Some([])
    else if s[0] == '(' then
      match ParseItem(s[1..], true)
      case None => None
      case Some((item, rest)) =>
        if rest == "" || rest[0] != ')' then None
        else
          match Parse(rest[1..])
          case None => None
          case Some(tail) => Some([item] + tail)
    else
      match ParseItem(s, false)
      case None => None
      case Some((item, rest)) =>
        match Parse(rest)
        case None => None
        case Some(tail) => Some([item] + tail)
  }

  /** An expression anchored at both ends, `^...$`. */
  function Compile(text: string): Option<seq<Piece>> {
    if |text| < 2 || text[0] != '^' || text[|text| - 1] != '$' then None
    else Parse(text[1..|text| - 1])
  }

  // ---------------------------------------------------------------- meaning

  /** `pieces` can consume the whole of `s`, capturing `caps`. */
  ghost predicate Matches(pieces: seq<Piece>, s: string, caps: seq<string>)
    decreases |pieces|
  {
    if pieces == [] then s == "" && caps == []
    else exists k: nat :: Consumes(pieces, s, caps, k)
  }

  /** ... with the first piece consuming exactly `k` characters. */
  ghost predicate Consumes(pieces: seq<Piece>, s: string, caps: seq<string>, k: nat)
    requires pieces != []
    decreases |pieces|, 0
  {
    var p := pieces[0];
    && 1 <= k <= |s|
    && (p.plus || k == 1)
    && p.cls.HasAll(s[..k])
    && (if p.captured
        then caps != [] && caps[0] == s[..k] && Matches(pieces[1..], s[k..], caps[1..])
        else Matches(pieces[1..], s[k..], caps))
  }

  /** Backtracking execution, longest choice first; None when there is no match. */
  function Exec(pieces: seq<Piece>, s: string): Option<seq<string>>
    decreases |pieces|, |s| + 1
  {
    if pieces == [] then (if s == "" then Some([]) else None)
    else if s == "" then None
    else ExecFrom(pieces, s, if pieces[0].plus then |s| else 1)
  }

  /** Tries to let the first piece consume `k` characters, then `k - 1`, and so on. */
  function ExecFrom(pieces: seq<Piece>, s: string, k: nat): Option<seq<string>>
    requires pieces != [] && k <= |s|
    decreases |pieces|, k
  {
    if k == 0 then None
    else
      var rest := if pieces[0].cls.HasAll(s[..k]) then Exec(pieces[1..], s[k..]) else None;
      match rest
      case Some(caps) => Some(if pieces[0].captured then [s[..k]] + caps else caps)
      case None => ExecFrom(pieces, s, k - 1)
  }

  /** Execution finds a match exactly when there is one, and what it returns is one. */
  lemma {:induction false} ExecCorrect(pieces: seq<Piece>, s: string)
    ensures Exec(pieces, s).Some? ==> Matches(pieces, s, Exec(pieces, s).value)
    ensures forall caps :: Matches(pieces, s, caps) ==> Exec(pieces, s).Some?
    decreases |pieces|, |s| + 1
  {
    if pieces != [] && s != "" {
      var top := if pieces[0].plus then |s| else 1;
      ExecFromCorrect(pieces, s, top);
      if ExecFrom(pieces, s, top).Some? {
        var k :| 1 <= k <= top && Consumes(pieces, s, ExecFrom(pieces, s, top).value, k);
      }
    }
  }

  lemma {:induction false} ExecFromCorrect(pieces: seq<Piece>, s: string, top: nat)
    requires pieces != [] && top <= |s|
    requires pieces[0].plus || top <= 1
    ensures var r := ExecFrom(pieces, s, top);
            r.Some? ==> exists k :: 1 <= k <= top && Consumes(pieces, s, r.value, k)
    ensures forall caps, k | 1 <= k <= top && Consumes(pieces, s, caps, k) :: ExecFrom(pieces, s, top).Some?
    decreases |pieces|, top
  {
    if top > 0 {
      ExecCorrect(pieces[1..], s[top..]);
      ExecFromCorrect(pieces, s, top - 1);
      var r := ExecFrom(pieces, s, top);
      if pieces[0].cls.HasAll(s[..top]) && Exec(pieces[1..], s[top..]).Some? {
        var caps := Exec(pieces[1..], s[top..]).value;
        if pieces[0].captured {
          assert r.value[1..] == caps;
        }
        assert Consumes(pieces, s, r.value, top);
      }
    }
  }
}
