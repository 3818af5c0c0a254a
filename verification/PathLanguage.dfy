/**
 What the compiled expression of a route pattern accepts: the two textual rewrites of
 `pathToRegex`, read back as a regular expression, mean segment-wise matching.
 */
module PathLanguage {
  import opened Prelude
  import opened Regex
  import opened PathMatcher

  // ---------------------------------------------------------------- text lemmas

  lemma {:induction false} SlashAtAppend(a: string, b: string)
    requires '/' !in a
    ensures SlashAt(a + b) == |a| + SlashAt(b)
  {
    if a == "" {
      assert a + b == b;
    } else {
      SlashAtAppend(a[1..], b);
      assert (a + b)[1..] == a[1..] + b;
      assert (a + b)[0] == a[0];
    }
  }

  lemma {:induction false} ColonAtAppend(a: string, b: string)
    requires ':' !in a
    ensures ColonAt(a + b) == |a| + ColonAt(b)
  {
    if a == "" {
      assert a + b == b;
    } else {
      ColonAtAppend(a[1..], b);
      assert (a + b)[1..] == a[1..] + b;
      assert (a + b)[0] == a[0];
    }
  }

  lemma SplitCons(a: string, b: string)
    requires '/' !in a
    ensures Split(a + "/" + b) == [a] + Split(b)
    ensures Split(a) == [a]
  {
    SlashAtAppend(a, "/" + b);
    SlashAtAppend(a, "");
    assert a + "/" + b == a + ("/" + b);
    assert a + "" == a;
    assert (a + "/" + b)[|a| + 1..] == b;
    assert (a + "/" + b)[..|a|] == a;
  }

  lemma {:induction false} SplitJoin(parts: seq<string>)
    requires parts != [] && forall t <- parts :: '/' !in t
    ensures Split(Join(parts)) == parts
  {
    if |parts| == 1 {
      SplitCons(parts[0], "");
      assert parts == [parts[0]];
    } else {
      SplitJoin(parts[1..]);
      SplitCons(parts[0], Join(parts[1..]));
      assert parts == [parts[0]] + parts[1..];
    }
  }

  lemma JoinCons(first: string, parts: seq<string>)
    requires parts != []
    ensures Join([first] + parts) == first + "/" + Join(parts)
  {
    assert ([first] + parts)[1..] == parts;
  }

  lemma {:induction false} JoinSplit(s: string)
    ensures Join(Split(s)) == s
    decreases |s|
  {
    var n := SlashAt(s);
    if n < |s| {
      JoinSplit(s[n + 1..]);
      JoinCons(s[..n], Split(s[n + 1..]));
      CutAtSlash(s, n);
    } else {
      assert Split(s) == [s];
    }
  }

  lemma CutAtSlash(s: string, n: nat)
    requires n < |s| && s[n] == '/'
    ensures s[..n] + "/" + s[n + 1..] == s
  {}

  lemma SegmentTextInverse(text: string)
    ensures SegmentText(ParseSegment(text)) == text
  {
    var n := ColonAt(text);
    if n < |text| {
      assert text == text[..n] + ":" + text[n + 1..];
    } else {
      assert text + "" == text;
    }
  }

  lemma {:induction false} RenderParsed(parts: seq<string>)
    requires parts != []
    ensures Render(ParseSegments(parts)) == Join(parts)
  {
    SegmentTextInverse(parts[0]);
    if |parts| > 1 {
      RenderParsed(parts[1..]);
      assert ParseSegments(parts)[1..] == ParseSegments(parts[1..]);
    }
  }

  /** Reading a pattern into segments loses nothing. */
  lemma RenderSegments(pattern: string)
    ensures Render(Segments(pattern)) == pattern
  {
    RenderParsed(Split(pattern));
    JoinSplit(pattern);
  }

  lemma SegmentTextParses(g: Segment)
    requires PlainSegment(g)
    ensures ParseSegment(SegmentText(g)) == g
  {
    var rest := if g.param.Some? then ":" + g.param.value else "";
    ColonAtAppend(g.prefix, rest);
    if g.param.Some? {
      assert SegmentText(g)[|g.prefix| + 1..] == g.param.value;
    }
  }

  lemma ParseSegmentsCons(text: string, parts: seq<string>)
    ensures ParseSegments([text] + parts) == [ParseSegment(text)] + ParseSegments(parts)
  {}

  lemma SegmentsCons(g: Segment, rest: string)
    requires PlainSegment(g)
    ensures Segments(SegmentText(g) + "/" + rest) == [g] + Segments(rest)
    ensures Segments(SegmentText(g)) == [g]
  {
    SegmentTextParses(g);
    SplitCons(SegmentText(g), rest);
    ParseSegmentsCons(SegmentText(g), Split(rest));
  }

  /** ... and writing segments out loses nothing either. */
  lemma {:induction false} SegmentsOfRender(segs: seq<Segment>)
    requires PlainSegments(segs)
    ensures Segments(Render(segs)) == segs
  {
    PlainTail(segs);
    if |segs| == 1 {
      SegmentsCons(segs[0], "");
    } else {
      SegmentsOfRender(segs[1..]);
      SegmentsCons(segs[0], Render(segs[1..]));
      assert segs == [segs[0]] + segs[1..];
    }
  }

  // ---------------------------------------------------------------- what the rewrites produce

  const CAPTURE_PIECE := Piece(NoneOf("/"), true, true)
  const SLASH_PIECE := Piece(Exactly('/'), false, false)

  /**
   The text the two rewrites leave. After a parameter the slash is bare: the second rewrite
   has swallowed the backslash that the first one put there.
   */
  function RegexText(segs: seq<Segment>): string
    requires segs != []
  {
    var g := segs[0];
    g.prefix + (if g.param.Some? then CAPTURE_GROUP else "")
    + (if |segs| == 1 then "" else (if g.param.Some? then "/" else "\\/") + RegexText(segs[1..]))
  }

  function LiteralPieces(s: string): (ps: seq<Piece>)
    ensures |ps| == |s|
    ensures forall i | 0 <= i < |s| :: ps[i] == Piece(Exactly(s[i]), false, false)
  {
    seq(|s|, i requires 0 <= i < |s| => Piece(Exactly(s[i]), false, false))
  }

  function PiecesOf(segs: seq<Segment>): seq<Piece>
    requires segs != []
  {
    var g := segs[0];
    LiteralPieces(g.prefix) + (if g.param.Some? then [CAPTURE_PIECE] else [])
    + (if |segs| == 1 then [] else [SLASH_PIECE] + PiecesOf(segs[1..]))
  }

  lemma {:induction false} EscapeAppend(a: string, b: string)
    requires '/' !in a
    ensures EscapeSlashes(a + b) == a + EscapeSlashes(b)
  {
    if a == "" {
      assert a + b == b;
    } else {
      EscapeAppend(a[1..], b);
      assert (a + b)[1..] == a[1..] + b;
      assert a == [a[0]] + a[1..];
    }
  }

  lemma {:induction false} ReplaceLiteral(a: string, b: string)
    requires ':' !in a
    ensures ReplaceParams(a + b) == a + ReplaceParams(b)
    ensures ParamNames(a + b) == ParamNames(b)
  {
    if a == "" {
      assert a + b == b;
    } else {
      ReplaceLiteral(a[1..], b);
      assert (a + b)[1..] == a[1..] + b;
      assert a == [a[0]] + a[1..];
      assert (a + b)[0] == a[0] != ':';
    }
  }

  /** A parameter's run swallows everything up to the next slash (or the end). */
  lemma ReplaceParam(run: string, rest: string)
    requires run != "" && '/' !in run
    requires rest == "" || rest[0] == '/'
    ensures ReplaceParams(":" + run + rest) == CAPTURE_GROUP + ReplaceParams(rest)
    ensures ParamNames(":" + run + rest) == [run] + ParamNames(rest)
  {
    var s := ":" + run + rest;
    assert s[1..] == run + rest;
    assert s[1] == run[0];
    SlashAtAppend(run, rest);
    assert SlashAt(rest) == 0;
    assert s[1 + |run|..] == rest;
    assert s[1..1 + |run|] == run;
  }

  lemma PlainTail(segs: seq<Segment>)
    requires PlainSegments(segs)
    ensures PlainSegment(segs[0])
    ensures |segs| > 1 ==> PlainSegments(segs[1..])
    ensures |segs| == 1 ==> segs[0].param != Some("")
  {}

  lemma {:induction false} RewritesProduce(segs: seq<Segment>)
    requires PlainSegments(segs)
    ensures ReplaceParams(EscapeSlashes(Render(segs))) == RegexText(segs)
  {
    var g := segs[0];
    PlainTail(segs);
    if |segs| == 1 {
      EscapeSegment(g, "");
      assert SegmentText(g) + "" == SegmentText(g);
      RewriteLast(g);
    } else {
      RewritesProduce(segs[1..]);
      RewriteCons(g, Render(segs[1..]), RegexText(segs[1..]));
      assert Render(segs) == SegmentText(g) + ("/" + Render(segs[1..]));
    }
  }

  lemma RewriteCons(g: Segment, others: string, text: string)
    requires PlainSegment(g)
    requires ReplaceParams(EscapeSlashes(others)) == text
    ensures ReplaceParams(EscapeSlashes(SegmentText(g) + ("/" + others)))
         == g.prefix + (if g.param.Some? then CAPTURE_GROUP else "")
            + ((if g.param.Some? then "/" else "\\/") + text)
  {
    EscapeSegment(g, "/" + others);
    EscapeSeparator(others);
    RewriteInner(g, EscapeSlashes(others));
  }

  lemma EscapeSegment(g: Segment, rest: string)
    requires PlainSegment(g)
    ensures EscapeSlashes(SegmentText(g) + rest) == SegmentText(g) + EscapeSlashes(rest)
  {
    assert '/' !in SegmentText(g);
    EscapeAppend(SegmentText(g), rest);
  }

  lemma EscapeSeparator(rest: string)
    ensures EscapeSlashes("/" + rest) == "\\/" + EscapeSlashes(rest)
  {
    assert ("/" + rest)[1..] == rest;
  }

  lemma RewriteSeparator(rest: string)
    ensures ReplaceParams("/" + rest) == "/" + ReplaceParams(rest)
    ensures ReplaceParams("\\/" + rest) == "\\/" + ReplaceParams(rest)
  {
    ReplaceLiteral("/", rest);
    ReplaceLiteral("\\/", rest);
  }

  lemma RewriteParam(prefix: string, name: string, backslash: string, rest: string)
    requires ':' !in prefix && '/' !in name && '/' !in backslash && name + backslash != ""
    requires rest == "" || rest[0] == '/'
    ensures ReplaceParams(prefix + (":" + name) + (backslash + rest)) == prefix + (CAPTURE_GROUP + ReplaceParams(rest))
  {
    var run := name + backslash;
    ConcatAssoc(prefix, ":" + name, backslash + rest);
    ConcatAssoc(":" + name, backslash, rest);
    ConcatAssoc(":", name, backslash);
    ReplaceLiteral(prefix, ":" + run + rest);
    ReplaceParam(run, rest);
  }

  /** The last segment. */
  lemma RewriteLast(g: Segment)
    requires PlainSegment(g) && g.param != Some("")
    ensures ReplaceParams(SegmentText(g)) == g.prefix + if g.param.Some? then CAPTURE_GROUP else ""
  {
    match g.param
    case None =>
      ReplaceLiteral(g.prefix, "");
      assert SegmentText(g) == g.prefix + "";
    case Some(name) =>
      RewriteParam(g.prefix, name, "", "");
      assert SegmentText(g) == g.prefix + (":" + name) + ("" + "");
      assert CAPTURE_GROUP + ReplaceParams("") == CAPTURE_GROUP;
  }

  /** A segment and the escaped slash after it: a parameter takes the backslash along. */
  lemma RewriteInner(g: Segment, escaped: string)
    requires PlainSegment(g)
    ensures ReplaceParams(SegmentText(g) + ("\\/" + escaped))
         == g.prefix + (if g.param.Some? then CAPTURE_GROUP else "")
            + ((if g.param.Some? then "/" else "\\/") + ReplaceParams(escaped))
  {
    RewriteSeparator(escaped);
    match g.param
    case None =>
      ReplaceLiteral(g.prefix, "\\/" + escaped);
      assert SegmentText(g) == g.prefix && g.prefix + "" == g.prefix;
    case Some(name) =>
      assert "\\/" + escaped == "\\" + ("/" + escaped);
      RewriteParam(g.prefix, name, "\\", "/" + escaped);
      ConcatAssoc(g.prefix, CAPTURE_GROUP, "/" + ReplaceParams(escaped));
  }

  /** The names seen in one segment and in what follows it. */
  lemma SegmentParamNames(g: Segment, more: string)
    requires PlainSegment(g)
    requires more == "" || more[0] == '/'
    ensures ParamNames(SegmentText(g) + more)
         == (if g.param.Some? && g.param.value != "" then [g.param.value] else []) + ParamNames(more)
  {
    match g.param
    case None =>
      ReplaceLiteral(g.prefix, more);
      assert SegmentText(g) == g.prefix;
    case Some(name) =>
      var tail := ":" + name + more;
      assert SegmentText(g) + more == g.prefix + tail;
      ReplaceLiteral(g.prefix, tail);
      if name == "" {
        assert tail[1..] == more;
      } else {
        ReplaceParam(name, more);
      }
  }

  lemma {:induction false} ProperNamesAreParamNames(segs: seq<Segment>)
    requires PlainSegments(segs)
    ensures ParamNames(Render(segs)) == ProperNames(segs)
  {
    PlainTail(segs);
    if |segs| == 1 {
      SegmentParamNames(segs[0], "");
      assert SegmentText(segs[0]) + "" == SegmentText(segs[0]);
    } else {
      var others := Render(segs[1..]);
      ProperNamesAreParamNames(segs[1..]);
      ReplaceLiteral("/", others);
      SegmentParamNames(segs[0], "/" + others);
      assert Render(segs) == SegmentText(segs[0]) + ("/" + others);
    }
  }

  // ---------------------------------------------------------------- reading it back

  lemma LiteralPiecesCons(a: string)
    requires a != ""
    ensures LiteralPieces(a) == [Piece(Exactly(a[0]), false, false)] + LiteralPieces(a[1..])
  {}

  lemma {:induction false} ParseLiteral(a: string, rest: string, pieces: seq<Piece>, whole: string)
    requires forall c <- a :: !IsSyntaxChar(c)
    requires rest == "" || rest[0] != '+'
    requires Parse(rest) == Some(pieces)
    requires whole == a + rest
    ensures Parse(whole) == Some(LiteralPieces(a) + pieces)
  {
    if a == "" {
      assert whole == rest;
      assert LiteralPieces(a) + pieces == pieces;
    } else {
      var first := [Piece(Exactly(a[0]), false, false)];
      assert a[0] in a;
      NoLeadingPlus(a[1..], rest);
      ParseLiteral(a[1..], rest, pieces, a[1..] + rest);
      ParseOne(a[0], a[1..] + rest);
      assert LiteralPieces(a) + pieces == first + (LiteralPieces(a[1..]) + pieces) by {
        ConcatAssoc(first, LiteralPieces(a[1..]), pieces);
        LiteralPiecesCons(a);
      }
      assert whole == [a[0]] + (a[1..] + rest) by {
        ConcatAssoc([a[0]], a[1..], rest);
        assert a == [a[0]] + a[1..];
      }
    }
  }

  lemma ParseOne(c: char, rest: string)
    requires !IsSyntaxChar(c)
    requires rest == "" || rest[0] != '+'
    requires Parse(rest).Some?
    ensures Parse([c] + rest) == Some([Piece(Exactly(c), false, false)] + Parse(rest).value)
  {
    assert ([c] + rest)[1..] == rest;
  }

  lemma ParseSlash(rest: string)
    requires rest == "" || rest[0] != '+'
    requires Parse(rest).Some?
    ensures Parse("/" + rest) == Parse("\\/" + rest) == Some([SLASH_PIECE] + Parse(rest).value)
  {
    assert ("/" + rest)[1..] == rest;
    assert ("\\/" + rest)[2..] == rest;
  }

  lemma ClassBodySlash(rest: string)
    ensures ClassBody("\\/]" + rest) == Some(("/", rest))
  {
    var s := "\\/]" + rest;
    assert s[2..] == "]" + rest;
    assert s[2..][1..] == rest;
    assert "/" == ['/'] + "";
  }

  lemma ParseCaptureItem(rest: string)
    ensures ParseItem("[^\\/]+" + rest, true) == Some((CAPTURE_PIECE, rest))
  {
    var s := "[^\\/]+" + rest;
    assert s[2..] == "\\/]" + ("+" + rest);
    ClassBodySlash("+" + rest);
    assert ParseClass(s) == Some((NoneOf("/"), "+" + rest));
    assert ("+" + rest)[1..] == rest;
  }

  lemma ParseParenthesized(s: string, item: Piece, rest: string)
    requires s != "" && s[0] == '('
    requires ParseItem(s[1..], true) == Some((item, ")" + rest))
    requires Parse(rest).Some?
    ensures Parse(s) == Some([item] + Parse(rest).value)
  {
    assert (")" + rest)[1..] == rest;
  }

  lemma GroupSplits(rest: string)
    ensures (CAPTURE_GROUP + rest)[1..] == "[^\\/]+" + (")" + rest)
  {}

  lemma ParseCapture(rest: string)
    requires Parse(rest).Some?
    ensures Parse(CAPTURE_GROUP + rest) == Some([CAPTURE_PIECE] + Parse(rest).value)
  {
    var s := CAPTURE_GROUP + rest;
    GroupSplits(rest);
    ParseCaptureItem(")" + rest);
    ParseParenthesized(s, CAPTURE_PIECE, rest);
  }

  lemma NoLeadingPlus(prefix: string, rest: string)
    requires forall c <- prefix :: !IsSyntaxChar(c)
    requires rest == "" || rest[0] != '+'
    ensures prefix + rest == "" || (prefix + rest)[0] != '+'
  {
    if prefix != "" {
      assert prefix[0] in prefix;
    }
  }

  /** The group a parameter leaves, if there is one, parses in front of what follows it. */
  lemma ParseGroup(group: string, own: seq<Piece>, more: string, pieces: seq<Piece>)
    requires (group == CAPTURE_GROUP && own == [CAPTURE_PIECE]) || (group == "" && own == [])
    requires more == "" || more[0] != '+'
    requires Parse(more) == Some(pieces)
    ensures Parse(group + more) == Some(own + pieces)
    ensures group + more == "" || (group + more)[0] != '+'
  {
    if group == CAPTURE_GROUP {
      ParseCapture(more);
    } else {
      assert group + more == more && own + pieces == pieces;
    }
  }

  /** One segment's text parses in front of whatever follows it. */
  lemma ParseSegmentText(prefix: string, group: string, own: seq<Piece>, more: string, pieces: seq<Piece>)
    requires forall c <- prefix :: !IsSyntaxChar(c)
    requires (group == CAPTURE_GROUP && own == [CAPTURE_PIECE]) || (group == "" && own == [])
    requires more == "" || more[0] != '+'
    requires Parse(more) == Some(pieces)
    ensures Parse(prefix + group + more) == Some(LiteralPieces(prefix) + own + pieces)
    ensures prefix + group + more == "" || (prefix + group + more)[0] != '+'
  {
    var rest := group + more;
    ParseGroup(group, own, more, pieces);
    NoLeadingPlus(prefix, rest);
    ConcatAssoc(prefix, group, more);
    ConcatAssoc(LiteralPieces(prefix), own, pieces);
    ParseLiteral(prefix, rest, own + pieces, prefix + group + more);
  }

  lemma {:induction false} TextParses(segs: seq<Segment>)
    requires PlainSegments(segs)
    ensures Parse(RegexText(segs)) == Some(PiecesOf(segs))
    ensures RegexText(segs) == "" || RegexText(segs)[0] != '+'
  {
    var g := segs[0];
    assert PlainSegment(g);
    var group := if g.param.Some? then CAPTURE_GROUP else "";
    var own := if g.param.Some? then [CAPTURE_PIECE] else [];
    if |segs| == 1 {
      ParseSegmentText(g.prefix, group, own, "", []);
    } else {
      TextParses(segs[1..]);
      ParseSlash(RegexText(segs[1..]));
      ParseSegmentText(g.prefix, group, own, (if g.param.Some? then "/" else "\\/") + RegexText(segs[1..]),
                       [SLASH_PIECE] + PiecesOf(segs[1..]));
    }
  }

  lemma CompiledPieces(pattern: string)
    requires Compilable(pattern)
    ensures Compile(PathToRegex(pattern)) == Some(PiecesOf(Segments(pattern)))
  {
    var segs := Segments(pattern);
    RenderSegments(pattern);
    RewritesProduce(segs);
    TextParses(segs);
    var text := PathToRegex(pattern);
    assert text[1..|text| - 1] == RegexText(segs);
  }

  // ---------------------------------------------------------------- the language of the pieces

  lemma {:induction false} MatchLiteral(a: string, rest: seq<Piece>, s: string, caps: seq<string>)
    ensures Matches(LiteralPieces(a) + rest, s, caps) <==> a <= s && Matches(rest, s[|a|..], caps)
  {
    var ps := LiteralPieces(a) + rest;
    if a == "" {
      assert ps == rest && s[|a|..] == s;
    } else {
      assert ps[1..] == LiteralPieces(a[1..]) + rest;
      if s != "" {
        MatchLiteral(a[1..], rest, s[1..], caps);
        if |a| <= |s| {
          assert s[1..][|a| - 1..] == s[|a|..];
        }
        assert a <= s <==> a[0] == s[0] && a[1..] <= s[1..];
        assert Consumes(ps, s, caps, 1) <==> a[0] == s[0] && Matches(ps[1..], s[1..], caps);
        forall k: nat | Consumes(ps, s, caps, k) ensures k == 1 {}
      }
    }
  }

  lemma BoundaryAfter(rest: seq<Piece>, s: string, caps: seq<string>)
    requires rest == [] || rest[0] == SLASH_PIECE
    requires Matches(rest, s, caps)
    ensures s == "" || s[0] == '/'
  {
    if rest != [] {
      var m: nat :| Consumes(rest, s, caps, m);
      assert rest[0].cls.Has(s[..m][0]);
    }
  }

  /** A capture followed by a slash or the end takes exactly the text up to the next slash. */
  lemma MatchCapture(rest: seq<Piece>, s: string, caps: seq<string>)
    requires rest == [] || rest[0] == SLASH_PIECE
    ensures var n := SlashAt(s);
            Matches([CAPTURE_PIECE] + rest, s, caps)
            <==> n > 0 && caps != [] && caps[0] == s[..n] && Matches(rest, s[n..], caps[1..])
  {
    var ps := [CAPTURE_PIECE] + rest;
    assert ps[1..] == rest;
    var n := SlashAt(s);
    assert forall i | 0 <= i < n :: s[i] == s[..n][i] != '/';
    forall k: nat | Consumes(ps, s, caps, k) ensures k == n {
      assert forall i | 0 <= i < k :: s[i] == s[..k][i] && CAPTURE_PIECE.cls.Has(s[..k][i]);
      assert k <= n;
      BoundaryAfter(rest, s[k..], caps[1..]);
      assert k == |s| || s[k] == '/';
    }
    if n > 0 && caps != [] && caps[0] == s[..n] && Matches(rest, s[n..], caps[1..]) {
      assert Consumes(ps, s, caps, n);
    }
  }

  lemma MatchSlash(rest: seq<Piece>, s: string, caps: seq<string>)
    ensures Matches([SLASH_PIECE] + rest, s, caps)
            <==> s != "" && s[0] == '/' && Matches(rest, s[1..], caps)
  {
    MatchLiteral("/", rest, s, caps);
    assert LiteralPieces("/") == [SLASH_PIECE];
  }

  lemma {:induction false} PiecesLanguage(segs: seq<Segment>, path: string, caps: seq<string>)
    requires PlainSegments(segs)
    ensures Matches(PiecesOf(segs), path, caps)
            <==> Accepts(segs, Split(path)) && caps == Captures(segs, Split(path))
  {
    PlainTail(segs);
    if |segs| == 1 {
      FirstSegment(segs[0], [], path, caps);
      LastSegmentMeaning(segs, path, caps);
    } else {
      if SlashAt(path) < |path| {
        var rest := path[SlashAt(path) + 1..];
        forall c ensures Matches(PiecesOf(segs[1..]), rest, c) <==> Accepts(segs[1..], Split(rest)) && c == Captures(segs[1..], Split(rest)) {
          PiecesLanguage(segs[1..], rest, c);
        }
      }
      PiecesCons(segs, path, caps);
    }
  }

  lemma PiecesCons(segs: seq<Segment>, path: string, caps: seq<string>)
    requires |segs| > 1 && PlainSegment(segs[0])
    requires SlashAt(path) < |path| ==>
               var rest := path[SlashAt(path) + 1..];
               forall c :: Matches(PiecesOf(segs[1..]), rest, c) <==> Accepts(segs[1..], Split(rest)) && c == Captures(segs[1..], Split(rest))
    ensures Matches(PiecesOf(segs), path, caps)
            <==> Accepts(segs, Split(path)) && caps == Captures(segs, Split(path))
  {
    var g, n, others := segs[0], SlashAt(path), PiecesOf(segs[1..]);
    FirstSegment(g, [SLASH_PIECE] + others, path, caps);
    ConsSegmentMeaning(segs, path, caps);
    if AcceptsSegment(g, path[..n]) && CapturedBy(g, path[..n]) <= caps {
      MatchSlash(others, path[n..], caps[|CapturedBy(g, path[..n])|..]);
      if n < |path| {
        assert path[n..][1..] == path[n + 1..];
      }
    }
  }

  lemma LastSegmentMeaning(segs: seq<Segment>, path: string, caps: seq<string>)
    requires |segs| == 1
    ensures var g, n := segs[0], SlashAt(path);
            Accepts(segs, Split(path)) && caps == Captures(segs, Split(path))
            <==> AcceptsSegment(g, path[..n]) && n == |path| && caps == CapturedBy(g, path[..n])
  {
    var g, n, parts := segs[0], SlashAt(path), Split(path);
    assert parts[0] == path[..n];
    assert |parts| == 1 <==> n == |path|;
    assert Accepts(segs, parts) <==> |parts| == 1 && AcceptsSegment(g, parts[0]);
    if Accepts(segs, parts) {
      assert segs[1..] == [] && parts[1..] == [];
      assert Captures(segs, parts) == CapturedBy(g, parts[0]) + [];
    }
  }

  lemma ConsSegmentMeaning(segs: seq<Segment>, path: string, caps: seq<string>)
    requires |segs| > 1
    ensures var g, n := segs[0], SlashAt(path);
            Accepts(segs, Split(path)) && caps == Captures(segs, Split(path))
            <==> (&& AcceptsSegment(g, path[..n])
                  && n < |path|
                  && CapturedBy(g, path[..n]) <= caps
                  && Accepts(segs[1..], Split(path[n + 1..]))
                  && caps[|CapturedBy(g, path[..n])|..] == Captures(segs[1..], Split(path[n + 1..])))
  {
    var n, parts := SlashAt(path), Split(path);
    AcceptsCons(segs, parts);
    if n < |path| {
      var later := Split(path[n + 1..]);
      assert parts[0] == path[..n] && parts[1..] == later;
      if AcceptsSegment(segs[0], path[..n]) && Accepts(segs[1..], later) {
        var own := CapturedBy(segs[0], path[..n]);
        assert Captures(segs, parts) == own + Captures(segs[1..], later);
        SplitsAfter(caps, own, Captures(segs[1..], later));
      }
    } else {
      assert |parts| == 1;
    }
  }

  lemma SplitsAfter<T>(whole: seq<T>, front: seq<T>, back: seq<T>)
    ensures whole == front + back <==> front <= whole && whole[|front|..] == back
  {
    if front <= whole && whole[|front|..] == back {
      assert whole == whole[..|front|] + whole[|front|..];
    }
  }

  lemma AcceptsCons(segs: seq<Segment>, parts: seq<string>)
    requires segs != [] && parts != []
    ensures Accepts(segs, parts) <==> AcceptsSegment(segs[0], parts[0]) && Accepts(segs[1..], parts[1..])
  {
    if AcceptsSegment(segs[0], parts[0]) && Accepts(segs[1..], parts[1..]) {
      forall i | 0 <= i < |segs| ensures AcceptsSegment(segs[i], parts[i]) {
        if i > 0 {
          assert AcceptsSegment(segs[1..][i - 1], parts[1..][i - 1]);
        }
      }
    }
    if Accepts(segs, parts) {
      forall i | 0 <= i < |segs[1..]| ensures AcceptsSegment(segs[1..][i], parts[1..][i]) {
        assert AcceptsSegment(segs[i + 1], parts[i + 1]);
      }
    }
  }

  lemma PrefixBeforeSlash(prefix: string, path: string)
    requires '/' !in prefix
    ensures prefix <= path[..SlashAt(path)] <==> prefix <= path
    ensures prefix <= path ==> SlashAt(path) == |prefix| + SlashAt(path[|prefix|..])
  {
    if prefix <= path {
      assert path == prefix + path[|prefix|..];
      SlashAtAppend(prefix, path[|prefix|..]);
    }
  }

  lemma FirstLiteral(prefix: string, more: seq<Piece>, path: string, caps: seq<string>)
    requires '/' !in prefix
    requires more == [] || more[0] == SLASH_PIECE
    ensures var n := SlashAt(path);
            Matches(LiteralPieces(prefix) + more, path, caps) <==> path[..n] == prefix && Matches(more, path[n..], caps)
  {
    var p := |prefix|;
    PrefixBeforeSlash(prefix, path);
    MatchLiteral(prefix, more, path, caps);
    if prefix <= path && Matches(more, path[p..], caps) {
      BoundaryAfter(more, path[p..], caps);
    }
  }

  lemma ParamAfterPrefix(prefix: string, tail: string, more: seq<Piece>, caps: seq<string>)
    requires more == [] || more[0] == SLASH_PIECE
    ensures var m := SlashAt(tail);
            Matches(LiteralPieces(prefix) + [CAPTURE_PIECE] + more, prefix + tail, caps)
            <==> m > 0 && caps != [] && caps[0] == tail[..m] && Matches(more, tail[m..], caps[1..])
  {
    ConcatAssoc(LiteralPieces(prefix), [CAPTURE_PIECE], more);
    MatchLiteral(prefix, [CAPTURE_PIECE] + more, prefix + tail, caps);
    assert (prefix + tail)[|prefix|..] == tail;
    MatchCapture(more, tail, caps);
  }

  lemma FirstParam(prefix: string, more: seq<Piece>, path: string, caps: seq<string>)
    requires '/' !in prefix
    requires more == [] || more[0] == SLASH_PIECE
    ensures var n := SlashAt(path);
            Matches(LiteralPieces(prefix) + [CAPTURE_PIECE] + more, path, caps)
            <==> prefix < path[..n] && caps != [] && caps[0] == path[..n][|prefix|..] && Matches(more, path[n..], caps[1..])
  {
    PrefixBeforeSlash(prefix, path);
    if prefix <= path {
      var tail, m := path[|prefix|..], SlashAt(path[|prefix|..]);
      assert path == prefix + tail;
      ParamAfterPrefix(prefix, tail, more, caps);
      assert tail[m..] == path[|prefix| + m..];
      assert tail[..m] == path[..|prefix| + m][|prefix|..];
    } else {
      ConcatAssoc(LiteralPieces(prefix), [CAPTURE_PIECE], more);
      MatchLiteral(prefix, [CAPTURE_PIECE] + more, path, caps);
    }
  }

  /** The first segment's pieces stand for the text up to the first slash. */
  lemma FirstSegment(g: Segment, more: seq<Piece>, path: string, caps: seq<string>)
    requires PlainSegment(g)
    requires more == [] || more[0] == SLASH_PIECE
    ensures var n := SlashAt(path);
            Matches(LiteralPieces(g.prefix) + (if g.param.Some? then [CAPTURE_PIECE] else []) + more, path, caps)
            <==> (&& AcceptsSegment(g, path[..n])
                  && CapturedBy(g, path[..n]) <= caps
                  && Matches(more, path[n..], caps[|CapturedBy(g, path[..n])|..]))
  {
    if g.param.Some? {
      FirstParam(g.prefix, more, path, caps);
    } else {
      FirstLiteral(g.prefix, more, path, caps);
      assert LiteralPieces(g.prefix) + [] == LiteralPieces(g.prefix);
      assert caps[0..] == caps;
    }
  }

  // ---------------------------------------------------------------- main results

  /**
   The compiled expression of a pattern accepts a path exactly when both have the same number
   of segments, literals agree and every parameter stands for a non-empty text; what it
   captures is then determined. A lone colon with a segment after it counts as a parameter:
   the backslash that the first rewrite inserts gives the second one a "name" to replace.
   */
  lemma PatternLanguage(pattern: string, path: string, caps: seq<string>)
    requires Compilable(pattern)
    ensures Compile(PathToRegex(pattern)).Some?
    ensures Matches(Compile(PathToRegex(pattern)).value, path, caps)
            <==> (&& Accepts(Segments(pattern), Split(path))
                  && caps == Captures(Segments(pattern), Split(path)))
  {
    CompiledPieces(pattern);
    PiecesLanguage(Segments(pattern), path, caps);
  }

  lemma {:induction false} CapturesCount(segs: seq<Segment>, parts: seq<string>)
    requires Accepts(segs, parts)
    ensures |Captures(segs, parts)| == |Names(segs)|
  {
    if segs != [] {
      CapturesCount(segs[1..], parts[1..]);
    }
  }

  /**
   `matchPath` said without any regular expression. Unnamed parameters take up a captured
   value but no name, so with them the values shift; in a well-formed pattern they do not.
   */
  lemma MatchPathMeaning(pattern: string, path: string)
    requires Compilable(pattern)
    ensures var segs, parts := Segments(pattern), Split(path);
            if Accepts(segs, parts)
            then |Names(segs)| == |Captures(segs, parts)|
                 && MatchResult(pattern, path) == Matched(BuildParams(ProperNames(segs), Captures(segs, parts)))
            else MatchResult(pattern, path) == NotMatched
    ensures WellFormed(pattern) ==> ProperNames(Segments(pattern)) == Names(Segments(pattern))
  {
    var segs, parts := Segments(pattern), Split(path);
    PatternLanguage(pattern, path, []);
    var pieces := Compile(PathToRegex(pattern)).value;
    ExecCorrect(pieces, path);
    RenderSegments(pattern);
    ProperNamesAreParamNames(segs);
    if Accepts(segs, parts) {
      PatternLanguage(pattern, path, Captures(segs, parts));
      PatternLanguage(pattern, path, Exec(pieces, path).value);
      CapturesCount(segs, parts);
    } else if Exec(pieces, path).Some? {
      PatternLanguage(pattern, path, Exec(pieces, path).value);
    }
  }
}
