/**
 Filling a pattern's parameters in and extracting them again are inverse to each other, and
 where exactly that stops being true.
 */
module PathRoundTrip {
  import opened Prelude
  import opened PathMatcher
  import opened PathLanguage

  // ---------------------------------------------------------------- filling a pattern in

  /** The parts of the path a pattern stands for when its parameters take these values. */
  function FillParts(segs: seq<Segment>, values: seq<string>): (parts: seq<string>)
    requires |values| == |Names(segs)|
    ensures |parts| == |segs|
  {
    if segs == [] then []
    else if segs[0].param.Some? then [segs[0].prefix + values[0]] + FillParts(segs[1..], values[1..])
    else [segs[0].prefix] + FillParts(segs[1..], values)
  }

  function Fill(pattern: string, values: seq<string>): string
    requires |values| == |Names(Segments(pattern))|
  {
    Join(FillParts(Segments(pattern), values))
  }

  predicate IsParamValue(v: string) {
    v != "" && '/' !in v
  }

  /** One usable value for every parameter, named or not. */
  predicate FillsIn(pattern: string, values: seq<string>) {
    |values| == |Names(Segments(pattern))| && forall i | 0 <= i < |values| :: IsParamValue(values[i])
  }

  lemma {:induction false} FilledPartsAccepted(segs: seq<Segment>, values: seq<string>)
    requires forall i | 0 <= i < |segs| :: PlainSegment(segs[i])
    requires |values| == |Names(segs)|
    requires forall i | 0 <= i < |values| :: IsParamValue(values[i])
    ensures var parts := FillParts(segs, values);
            && Accepts(segs, parts)
            && Captures(segs, parts) == values
            && forall t <- parts :: '/' !in t
  {
    if segs != [] {
      var g := segs[0];
      var parts := FillParts(segs, values);
      assert PlainSegment(g);
      var rest := if g.param.Some? then values[1..] else values;
      FilledPartsAccepted(segs[1..], rest);
      assert parts[1..] == FillParts(segs[1..], rest);
      if g.param.Some? {
        assert IsParamValue(values[0]);
        assert parts[0][|g.prefix|..] == values[0];
      }
      assert '/' !in parts[0];
      AcceptsCons(segs, parts);
    }
  }

  lemma {:induction false} CapturesRefill(segs: seq<Segment>, parts: seq<string>)
    requires Accepts(segs, parts)
    ensures |Captures(segs, parts)| == |Names(segs)|
    ensures FillParts(segs, Captures(segs, parts)) == parts
  {
    CapturesCount(segs, parts);
    if segs != [] {
      assert AcceptsSegment(segs[0], parts[0]);
      AcceptsCons(segs, parts);
      CapturesRefill(segs[1..], parts[1..]);
      var caps, later := Captures(segs, parts), Captures(segs[1..], parts[1..]);
      assert parts == [parts[0]] + parts[1..];
      if segs[0].param.Some? {
        assert caps[1..] == later;
        assert segs[0].prefix + caps[0] == parts[0];
      } else {
        assert caps == later;
      }
    }
  }

  lemma {:induction false} CapturesAreValues(segs: seq<Segment>, parts: seq<string>)
    requires Accepts(segs, parts)
    requires forall t <- parts :: '/' !in t
    ensures forall i | 0 <= i < |Captures(segs, parts)| :: IsParamValue(Captures(segs, parts)[i])
  {
    if segs != [] {
      assert AcceptsSegment(segs[0], parts[0]);
      assert '/' !in parts[0];
      CapturesAreValues(segs[1..], parts[1..]);
    }
  }

  /** `params` gives the i-th name the value of its j-th occurrence, none earlier than the i-th. */
  predicate ValueFrom(names: seq<string>, values: seq<string>, params: map<string, string>, i: nat, j: nat)
    requires |names| <= |values| && i < |names|
  {
    i <= j < |names| && names[j] == names[i] && names[i] in params && params[names[i]] == values[j]
  }

  lemma {:induction false} ParamsLookup(names: seq<string>, values: seq<string>, i: nat) returns (j: nat)
    requires |names| <= |values| && i < |names| && names[i] != PROTO
    ensures ValueFrom(names, values, BuildParams(names, values), i, j)
  {
    var n := |names| - 1;
    if names[i] == names[n] {
      j := n;
    } else {
      j := ParamsLookup(names[..n], values, i);
      assert names[..n][i] == names[i] && names[..n][j] == names[j];
    }
  }

  lemma {:induction false} ParamsKeys(names: seq<string>, values: seq<string>)
    requires |names| <= |values|
    ensures forall n :: n in BuildParams(names, values) <==> n in names && n != PROTO
  {
    if names != [] {
      var n := |names| - 1;
      ParamsKeys(names[..n], values);
      assert names == names[..n] + [names[n]];
    }
  }

  /** With distinct names, parameter i has value i. */
  lemma ParamsOfDistinct(names: seq<string>, values: seq<string>)
    requires |names| <= |values| && Distinct(names)
    ensures forall n :: n in BuildParams(names, values) <==> n in names && n != PROTO
    ensures forall i | 0 <= i < |names| && names[i] != PROTO :: BuildParams(names, values)[names[i]] == values[i]
  {
    ParamsKeys(names, values);
    forall i | 0 <= i < |names| && names[i] != PROTO ensures BuildParams(names, values)[names[i]] == values[i] {
      var j := ParamsLookup(names, values, i);
    }
  }

  ghost predicate Distinct(names: seq<string>) {
    forall i, j | 0 <= i < j < |names| :: names[i] != names[j]
  }

  /** A filled pattern is a path whose parameters stand for the values. */
  lemma FillIsAccepted(pattern: string, values: seq<string>)
    requires Compilable(pattern) && FillsIn(pattern, values)
    ensures Accepts(Segments(pattern), Split(Fill(pattern, values)))
    ensures Captures(Segments(pattern), Split(Fill(pattern, values))) == values
  {
    FilledPartsAccepted(Segments(pattern), values);
    SplitJoin(FillParts(Segments(pattern), values));
  }

  /**
   Filling a pattern and matching the result gives back exactly the values filled in, except
   that of a parameter called `__proto__`, which no object can hold.
   */
  lemma FillThenMatch(pattern: string, values: seq<string>)
    requires WellFormed(pattern) && FillsIn(pattern, values)
    requires Distinct(Names(Segments(pattern)))
    ensures var names, r := Names(Segments(pattern)), MatchResult(pattern, Fill(pattern, values));
            && r.Matched?
            && (forall n :: n in r.params <==> n in names && n != PROTO)
            && (forall i | 0 <= i < |names| && names[i] != PROTO :: r.params[names[i]] == values[i])
  {
    FillIsAccepted(pattern, values);
    MatchPathMeaning(pattern, Fill(pattern, values));
    ParamsOfDistinct(Names(Segments(pattern)), values);
  }

  /** The values `params` gives for the pattern's parameters, in the pattern's order. */
  function ParamValues(names: seq<string>, params: map<string, string>): (values: seq<string>)
    requires forall n <- names :: n in params
    ensures |values| == |names|
    ensures forall i | 0 <= i < |names| :: values[i] == params[names[i]]
  {
    seq(|names|, i requires 0 <= i < |names| => params[names[i]])
  }

  /** Parameters with the same name stand for the same text. */
  ghost predicate NamesAgree(names: seq<string>, values: seq<string>)
    requires |names| == |values|
  {
    forall i, j | 0 <= i < j < |names| :: names[i] == names[j] ==> values[i] == values[j]
  }

  lemma ParamValuesAgree(names: seq<string>, values: seq<string>)
    requires |names| == |values| && PROTO !in names
    ensures forall n <- names :: n in BuildParams(names, values)
    ensures ParamValues(names, BuildParams(names, values)) == values <==> NamesAgree(names, values)
    ensures forall v <- ParamValues(names, BuildParams(names, values)) :: v in values
  {
    ParamsKeys(names, values);
    var back := ParamValues(names, BuildParams(names, values));
    forall i | 0 <= i < |names| ensures back[i] in values && (NamesAgree(names, values) ==> back[i] == values[i]) {
      var j := ParamsLookup(names, values, i);
    }
  }

  /**
   Every parameter is extracted if and only if none is called `__proto__`. Then refilling the
   pattern with the extracted parameters gives back the path if and only if parameters with the
   same name stood for the same text. Distinct names always do.
   */
  lemma MatchThenFill(pattern: string, path: string)
    requires WellFormed(pattern)
    requires MatchResult(pattern, path).Matched?
    ensures var segs := Segments(pattern);
            var names, params := Names(segs), MatchResult(pattern, path).params;
            && Accepts(segs, Split(path))
            && ((forall n <- names :: n in params) <==> PROTO !in names)
            && |Captures(segs, Split(path))| == |names|
            && (PROTO !in names ==>
                  && (Fill(pattern, ParamValues(names, params)) == path <==> NamesAgree(names, Captures(segs, Split(path))))
                  && (Distinct(names) ==> Fill(pattern, ParamValues(names, params)) == path))
  {
    MatchPathMeaning(pattern, path);
    ParamsKeys(Names(Segments(pattern)), Captures(Segments(pattern), Split(path)));
    if PROTO !in Names(Segments(pattern)) {
      Refilled(pattern, path);
    }
  }

  lemma Refilled(pattern: string, path: string)
    requires Compilable(pattern) && Accepts(Segments(pattern), Split(path))
    requires PROTO !in Names(Segments(pattern)) && |Names(Segments(pattern))| == |Captures(Segments(pattern), Split(path))|
    ensures var names, caps := Names(Segments(pattern)), Captures(Segments(pattern), Split(path));
            && (forall n <- names :: n in BuildParams(names, caps))
            && (Fill(pattern, ParamValues(names, BuildParams(names, caps))) == path <==> NamesAgree(names, caps))
  {
    var segs, parts := Segments(pattern), Split(path);
    var names, caps := Names(segs), Captures(segs, parts);
    ParamValuesAgree(names, caps);
    var values := ParamValues(names, BuildParams(names, caps));
    CapturesAreValues(segs, parts);
    assert forall i | 0 <= i < |values| :: values[i] in values && IsParamValue(values[i]);
    FillIsAccepted(pattern, values);
    assert Fill(pattern, values) == path ==> values == caps;
    CapturesRefill(segs, parts);
    JoinSplit(path);
    assert Fill(pattern, caps) == path;
  }

  /** A pattern, read as a path, is matched by itself. */
  lemma MatchesItself(pattern: string)
    requires Compilable(pattern)
    ensures MatchResult(pattern, pattern).Matched?
  {
    MatchPathMeaning(pattern, pattern);
  }

  // ---------------------------------------------------------------- where the code surprises

  /** `a/:name/b` as segments. */
  function Between(a: string, name: string, b: string): seq<Segment> {
    [Segment(a, None), Segment("", Some(name)), Segment(b, None)]
  }

  lemma BetweenText(a: string, name: string, b: string)
    ensures Render(Between(a, name, b)) == a + "/" + (":" + name) + "/" + b
    ensures RegexText(Between(a, name, b)) == a + "\\/" + CAPTURE_GROUP + "/" + b
    ensures Names(Between(a, name, b)) == [name]
  {
    var s0 := Between(a, name, b);
    var s1, s2 := s0[1..], s0[1..][1..];
    assert s1 == [Segment("", Some(name)), Segment(b, None)] && s2 == [Segment(b, None)] && s2[1..] == [];
    assert Render(s2) == b && RegexText(s2) == b && Names(s2) == [];
    assert Render(s1) == ":" + name + "/" + b && RegexText(s1) == CAPTURE_GROUP + "/" + b && Names(s1) == [name];
    assert Render(s0) == a + "" + "/" + Render(s1) == a + "/" + (":" + name) + "/" + b;
    assert RegexText(s0) == a + "" + ("\\/" + RegexText(s1));
  }

  /**
   The comment above `pathToRegex` promises an escaped slash after the parameter of
   `users/:id/roles`; the code leaves it bare, there and after every parameter.
   */
  lemma SecondRewriteSwallowsBackslash(a: string, name: string, b: string)
    requires PlainSegments(Between(a, name, b))
    ensures PathToRegex(a + "/" + (":" + name) + "/" + b) == "^" + (a + "\\/" + CAPTURE_GROUP + "/" + b) + "$"
  {
    RewritesProduce(Between(a, name, b));
    BetweenText(a, name, b);
  }

  /**
   Unnamed parameters shift the values: the i-th NAMED parameter receives the i-th captured
   text, whether or not that text belongs to it.
   */
  lemma {:induction false} UnnamedParametersShift(pattern: string, values: seq<string>)
    requires Compilable(pattern) && FillsIn(pattern, values)
    requires Distinct(ProperNames(Segments(pattern)))
    ensures var names, r := ProperNames(Segments(pattern)), MatchResult(pattern, Fill(pattern, values));
            && r.Matched?
            && (forall n :: n in r.params <==> n in names && n != PROTO)
            && (forall i | 0 <= i < |names| && names[i] != PROTO :: r.params[names[i]] == values[i])
  {
    FilledResult(pattern, values);
    ParamsOfDistinct(ProperNames(Segments(pattern)), values);
  }

  /** `a/:/:name` as segments. */
  function AfterLoneColon(a: string, name: string): seq<Segment> {
    [Segment(a, None), Segment("", Some("")), Segment("", Some(name))]
  }

  lemma AfterLoneColonText(a: string, name: string)
    requires name != ""
    ensures Render(AfterLoneColon(a, name)) == a + "/" + (":" + "/" + (":" + name))
    ensures Names(AfterLoneColon(a, name)) == ["", name] && ProperNames(AfterLoneColon(a, name)) == [name]
  {
    var s0 := AfterLoneColon(a, name);
    var s1, s2 := s0[1..], s0[1..][1..];
    assert s1 == [Segment("", Some("")), Segment("", Some(name))] && s2 == [Segment("", Some(name))] && s2[1..] == [];
    assert Names(s2) == [name] && Names(s1) == ["", name];
    assert ProperNames(s2) == [name] && ProperNames(s1) == [name];
    assert SegmentText(s0[0]) == a && SegmentText(s1[0]) == ":" && SegmentText(s2[0]) == ":" + name;
    assert Render(s1) == SegmentText(s1[0]) + "/" + Render(s2);
    assert Render(s0) == SegmentText(s0[0]) + "/" + Render(s1);
  }

  lemma AfterLoneColonFilled(a: string, name: string, x: string, y: string)
    requires |Names(AfterLoneColon(a, name))| == 2
    ensures Join(FillParts(AfterLoneColon(a, name), [x, y])) == a + "/" + (x + "/" + y)
  {
    var s0 := AfterLoneColon(a, name);
    var s1, s2 := s0[1..], s0[1..][1..];
    assert s1 == [Segment("", Some("")), Segment("", Some(name))] && s2 == [Segment("", Some(name))] && s2[1..] == [];
    assert Names(s2) == [name] && Names(s1) == ["", name] && [x, y][1..] == [y] && [y][1..] == [];
    assert "" + x == x && "" + y == y;
    assert FillParts(s2, [y]) == [y] + FillParts([], []);
    assert FillParts(s1, [x, y]) == [x] + FillParts(s2, [y]) == [x, y];
    assert FillParts(s0, [x, y]) == [a] + [x, y] == [a, x, y];
    JoinCons(x, [y]);
    JoinCons(a, [x, y]);
    assert [x] + [y] == [x, y] && [a] + [x, y] == [a, x, y];
  }

  /** After a lone colon `name` receives the text that stood in the unnamed place before it. */
  lemma LoneColonShifts(a: string, name: string, x: string, y: string)
    requires PlainSegments(AfterLoneColon(a, name)) && IsParamValue(x) && IsParamValue(y)
    ensures MatchResult(a + "/" + (":" + "/" + (":" + name)), a + "/" + (x + "/" + y))
         == Matched(Assigned(map[], name, x))
  {
    var pattern, values := a + "/" + (":" + "/" + (":" + name)), [x, y];
    AfterLoneColonText(a, name);
    AfterLoneColonFilled(a, name, x, y);
    SegmentsOfRender(AfterLoneColon(a, name));
    FilledResult(pattern, values);
    BuildParamsOfOne(name, values);
  }

  lemma BuildParamsOfOne(name: string, values: seq<string>)
    requires values != []
    ensures BuildParams([name], values) == Assigned(map[], name, values[0])
  {
    assert [name][..0] == [];
  }

  /** ... for example: */
  lemma LoneColonExample()
    ensures MatchResult("a/:/:id", "a/x/y") == Matched(map["id" := "x"])
  {
    var segs := AfterLoneColon("a", "id");
    forall i | 0 <= i < |segs| ensures PlainSegment(segs[i]) {}
    LoneColonShifts("a", "id", "x", "y");
    assert "a" + "/" + (":" + "/" + (":" + "id")) == "a/:/:id" && "a" + "/" + ("x" + "/" + "y") == "a/x/y";
  }

  // ---------------------------------------------------------------- exactly when nothing shifts

  /** Matching the filled pattern gives every named parameter the value filled in for it. */
  predicate NamedGetTheirOwn(pattern: string, values: seq<string>)
    requires FillsIn(pattern, values)
  {
    var names, r := Names(Segments(pattern)), MatchResult(pattern, Fill(pattern, values));
    r.Matched? && forall j | 0 <= j < |names| && names[j] != "" :: names[j] in r.params && r.params[names[j]] == values[j]
  }

  lemma FilledResult(pattern: string, values: seq<string>)
    requires Compilable(pattern) && FillsIn(pattern, values)
    ensures MatchResult(pattern, Fill(pattern, values)) == Matched(BuildParams(ProperNames(Segments(pattern)), values))
  {
    FillIsAccepted(pattern, values);
    MatchPathMeaning(pattern, Fill(pattern, values));
  }

  function NonEmpty(names: seq<string>): seq<string> {
    if names == [] then [] else (if names[0] != "" then [names[0]] else []) + NonEmpty(names[1..])
  }

  lemma {:induction false} ProperNamesAreNonEmpty(segs: seq<Segment>)
    ensures ProperNames(segs) == NonEmpty(Names(segs))
  {
    if segs != [] {
      ProperNamesAreNonEmpty(segs[1..]);
      if segs[0].param.Some? {
        assert Names(segs)[1..] == Names(segs[1..]);
      } else {
        assert Names(segs) == Names(segs[1..]);
      }
    }
  }

  /** Which of all the parameters the i-th named one is. */
  function Place(names: seq<string>, i: nat): (k: nat)
    requires i < |NonEmpty(names)|
    ensures i <= k < |names|
    ensures names[k] == NonEmpty(names)[i]
  {
    if names[0] == "" then 1 + Place(names[1..], i)
    else if i == 0 then 0
    else 1 + Place(names[1..], i - 1)
  }

  lemma {:induction false} PlacesIncrease(names: seq<string>, i: nat, j: nat)
    requires i < j < |NonEmpty(names)|
    ensures Place(names, i) < Place(names, j)
  {
    if names[0] == "" {
      PlacesIncrease(names[1..], i, j);
    } else if i > 0 {
      PlacesIncrease(names[1..], i - 1, j - 1);
    }
  }

  lemma {:induction false} PlaceOf(names: seq<string>, k: nat) returns (i: nat)
    requires k < |names| && names[k] != ""
    ensures i < |NonEmpty(names)| && Place(names, i) == k
  {
    if k == 0 {
      i := 0;
    } else {
      i := PlaceOf(names[1..], k - 1);
      i := if names[0] == "" then i else i + 1;
    }
  }

  ghost predicate InPlace(names: seq<string>) {
    forall i | 0 <= i < |NonEmpty(names)| :: Place(names, i) == i
  }

  /** No unnamed parameter stands before a named one. */
  ghost predicate NamedFirst(names: seq<string>) {
    forall i, j | 0 <= i < j < |names| && names[j] != "" :: names[i] != ""
  }

  lemma PrefixIsInPlace(names: seq<string>)
    requires NonEmpty(names) <= names || NamedFirst(names)
    ensures InPlace(names)
  {
    forall i | 0 <= i < |NonEmpty(names)| ensures Place(names, i) == i {
      var place := Place(names, i);
      NonEmptyMembers(names, i);
      forall k | 0 <= k <= i ensures names[k] != "" {
        NonEmptyMembers(names, k);
        if !(NonEmpty(names) <= names) && k < place {
          assert names[place] != "";
        }
      }
      NothingSkipped(names, i);
    }
  }

  lemma InPlaceIsPrefix(names: seq<string>)
    requires InPlace(names)
    ensures NonEmpty(names) <= names && NamedFirst(names)
  {
    var proper := NonEmpty(names);
    PlacesFit(names);
    forall i | 0 <= i < |proper| ensures proper[i] == names[i] {
      assert Place(names, i) == i;
    }
    forall i, j | 0 <= i < j < |names| && names[j] != "" ensures names[i] != "" {
      var n := PlaceOf(names, j);
      NonEmptyMembers(names, i);
    }
  }

  /** The named ones come first exactly when they are a prefix. */
  lemma NamedComeFirst(names: seq<string>)
    ensures NonEmpty(names) <= names <==> NamedFirst(names)
  {
    if NonEmpty(names) <= names || NamedFirst(names) {
      PrefixIsInPlace(names);
      InPlaceIsPrefix(names);
    }
  }

  lemma {:induction false} PlacesFit(names: seq<string>)
    ensures |NonEmpty(names)| <= |names|
  {
    if names != [] {
      PlacesFit(names[1..]);
    }
  }

  lemma {:induction false} NonEmptyMembers(names: seq<string>, i: nat)
    requires i < |NonEmpty(names)|
    ensures NonEmpty(names)[i] != ""
  {
    if names[0] == "" {
      NonEmptyMembers(names[1..], i);
    } else if i > 0 {
      NonEmptyMembers(names[1..], i - 1);
    }
  }

  lemma {:induction false} NothingSkipped(names: seq<string>, i: nat)
    requires i < |NonEmpty(names)|
    requires i < |names| && forall k | 0 <= k <= i :: names[k] != ""
    ensures Place(names, i) == i
  {
    if i > 0 {
      NothingSkipped(names[1..], i - 1);
    }
  }

  /** `n` values no two of which are equal. */
  function Different(n: nat): (values: seq<string>)
    ensures |values| == n
    ensures forall i | 0 <= i < n :: IsParamValue(values[i]) && |values[i]| == i + 1
  {
    seq(n, i requires 0 <= i < n => seq(i + 1, _ => 'x'))
  }

  /** If values that all differ come back to their own names, the names are distinct and first. */
  lemma OwnValuesNeedOrder(names: seq<string>, values: seq<string>)
    requires |values| == |names|
    requires forall i, j | 0 <= i < j < |values| :: values[i] != values[j]
    requires |NonEmpty(names)| <= |names|
    requires forall j | 0 <= j < |names| && names[j] != "" ::
               var params := BuildParams(NonEmpty(names), values); names[j] in params && params[names[j]] == values[j]
    ensures NonEmpty(names) <= names && Distinct(NonEmpty(names)) && PROTO !in names
  {
    var proper := NonEmpty(names);
    ParamsKeys(proper, values);
    forall i | 0 <= i < |proper| ensures ValueFrom(proper, values, BuildParams(proper, values), i, Place(names, i)) {
      NonEmptyMembers(names, i);
      assert names[Place(names, i)] == proper[i] != PROTO;
      var k := ParamsLookup(proper, values, i);
      assert values[k] == values[Place(names, i)];
    }
    forall i, j | 0 <= i < j < |proper| ensures proper[i] != proper[j] {
      PlacesIncrease(names, i, j);
      assert ValueFrom(proper, values, BuildParams(proper, values), i, Place(names, i));
      assert ValueFrom(proper, values, BuildParams(proper, values), j, Place(names, j));
    }
    forall i | 0 <= i < |proper| ensures Place(names, i) == i {
      assert ValueFrom(proper, values, BuildParams(proper, values), i, Place(names, i));
      assert proper[Place(names, i)] == proper[i];
    }
    InPlaceIsPrefix(names);
  }

  lemma OrderedGetTheirOwn(pattern: string, values: seq<string>)
    requires Compilable(pattern) && FillsIn(pattern, values)
    requires ProperNames(Segments(pattern)) <= Names(Segments(pattern)) && Distinct(ProperNames(Segments(pattern)))
    requires PROTO !in Names(Segments(pattern))
    ensures NamedGetTheirOwn(pattern, values)
  {
    var names, proper := Names(Segments(pattern)), ProperNames(Segments(pattern));
    var r := MatchResult(pattern, Fill(pattern, values));
    ProperNamesAreNonEmpty(Segments(pattern));
    PrefixIsInPlace(names);
    UnnamedParametersShift(pattern, values);
    forall j | 0 <= j < |names| && names[j] != "" ensures names[j] in r.params && r.params[names[j]] == values[j] {
      var i := PlaceOf(names, j);
      assert Place(names, i) == i == j;
      assert names[j] == proper[j];
    }
  }

  lemma OwnNeedsOrder(pattern: string)
    requires Compilable(pattern)
    requires forall values | FillsIn(pattern, values) :: NamedGetTheirOwn(pattern, values)
    ensures ProperNames(Segments(pattern)) <= Names(Segments(pattern)) && Distinct(ProperNames(Segments(pattern)))
    ensures PROTO !in Names(Segments(pattern))
  {
    var names := Names(Segments(pattern));
    var values := Different(|names|);
    assert FillsIn(pattern, values) && NamedGetTheirOwn(pattern, values);
    FilledResult(pattern, values);
    ProperNamesAreNonEmpty(Segments(pattern));
    forall i, j | 0 <= i < j < |values| ensures values[i] != values[j] {
      assert |values[i]| != |values[j]|;
    }
    OwnValuesNeedOrder(names, values);
  }

  /**
   Every named parameter receives its own text, whatever the values, if and only if the names
   are distinct, none is `__proto__`, and no unnamed parameter stands before a named one.
   */
  lemma {:induction false} NamedGetTheirOwnIff(pattern: string)
    requires Compilable(pattern)
    ensures var names := Names(Segments(pattern));
            (forall values | FillsIn(pattern, values) :: NamedGetTheirOwn(pattern, values))
            <==> Distinct(ProperNames(Segments(pattern))) && PROTO !in names && NamedFirst(names)
    ensures ProperNames(Segments(pattern)) <= Names(Segments(pattern)) <==> NamedFirst(Names(Segments(pattern)))
  {
    var names, proper := Names(Segments(pattern)), ProperNames(Segments(pattern));
    ProperNamesAreNonEmpty(Segments(pattern));
    NamedComeFirst(names);
    if forall values | FillsIn(pattern, values) :: NamedGetTheirOwn(pattern, values) {
      OwnNeedsOrder(pattern);
    }
    if proper <= names && Distinct(proper) && PROTO !in names {
      forall values | FillsIn(pattern, values) ensures NamedGetTheirOwn(pattern, values) {
        OrderedGetTheirOwn(pattern, values);
      }
    }
  }
}
