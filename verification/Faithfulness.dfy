/** Exactly which template texts the compiled code is faithful to, path by path. */
module Faithfulness {
  import opened Text
  import opened PathTemplate
  import opened PathCompiler
  import opened PatternMatcher
  import opened Bytecode
  import opened TemplateSemantics
  import opened TemplateSyntax
  import opened PathRoundTrip

  /** The path has the template's verb, and what is in front of it can be cut into slices for the pieces. */
  ghost predicate Fitting(t: Template, path: string)
  {
    var head := StripVerb(Components(path), VerbText(t.verb));
    head.Some? && HasCut(Pieces(t.segments), head.value)
  }

  /** There is something to match, and neither a literal nor the verb has a slash that no component can have. */
  predicate Reachable(pieces: seq<Piece>, verb: string)
  {
    pieces != [] && '/' !in verb && forall p <- pieces :: p.Literal? ==> '/' !in p.text
  }

  // ----- some path fits exactly the reachable templates -----

  lemma {:induction false} InFlatten(slices: seq<seq<string>>, i: nat, c: string)
    requires i < |slices| && c in slices[i]
    ensures c in Flatten(slices)
  {
    if i > 0 { InFlatten(slices[1..], i - 1, c); }
  }

  lemma FittingReachable(t: Template, path: string)
    requires Fitting(t, path)
    ensures Reachable(Pieces(t.segments), VerbText(t.verb))
  {
    hide Components, StripVerb, Flatten, Pieces;
    var pieces, verb := Pieces(t.segments), VerbText(t.verb);
    var head := StripVerb(Components(path), verb).value;
    HeadFree(path, verb);
    HeadNotEmpty(path, verb);
    var slices :| IsCut(pieces, head, slices);
    if pieces == [] { CutNothing(head, slices); }
    forall p | p in pieces && p.Literal? ensures '/' !in p.text {
      var i :| 0 <= i < |pieces| && pieces[i] == p;
      assert Fits(pieces[i], slices[i]);
      InFlatten(slices, i, p.text);
    }
  }

  /** What is in front of the verb is never empty, and a verb that was found has no slash. */
  lemma HeadNotEmpty(path: string, verb: string)
    requires StripVerb(Components(path), verb).Some?
    ensures StripVerb(Components(path), verb).value != [] && '/' !in verb
  {
    var components := Components(path);
    if verb != "" {
      var last := components[|components| - 1];
      ComponentsFree(path);
      assert last in components;
      var i := LastIndex(last, ':').value;
      assert forall c <- verb :: c in last;
    }
  }

  lemma ReachableFits(t: Template) returns (path: string)
    requires Reachable(Pieces(t.segments), VerbText(t.verb)) && ':' !in VerbText(t.verb)
    ensures Fitting(t, path)
  {
    var pieces := Pieces(t.segments);
    var components := SomeCut(pieces);
    if components == [] {
      components := ["x"];
      DeepRunAccepts(pieces, components);
      AcceptsIsCut(pieces, 0, components);
    }
    path := PathFor(components, VerbText(t.verb));
  }

  // ----- the exact class -----

  /**
   * For every text that compiles: acceptance means "the path has a cut" for all paths, exactly when nothing but
   * `**` follows a `**`, or when no path fits the template at all, a literal or the verb having a slash in it.
   */
  lemma FaithfulExactly(text: string)
    requires Parse(text).Some?
    ensures var t := Parse(text).value;
            var pieces := Pieces(t.segments);
            (forall path :: Match(Generate(t), path).Some? <==> Fitting(t, path)) <==>
            DeepLast(pieces) || !Reachable(pieces, VerbText(t.verb))
  {
    hide Components, StripVerb, Pieces, Generate, Match, Reachable, DeepLast, IsCut, DeepOnlyLast;
    var t := Parse(text).value;
    var pieces := Pieces(t.segments);
    ParsedVerb(text);
    if DeepLast(pieces) || !Reachable(pieces, VerbText(t.verb)) {
      forall path ensures Match(Generate(t), path).Some? <==> Fitting(t, path) {
        CompiledMeaning(text, path);
        if Fitting(t, path) { FittingReachable(t, path); }
      }
    } else {
      var path := ReachableFits(t);
      NeverMatches(text, path);
    }
  }

  /** A `**` with a `*` or a literal behind it: no path at all is answered. */
  lemma NeverMatches(text: string, path: string)
    requires Parse(text).Some? && !DeepLast(Pieces(Parse(text).value.segments))
    ensures Match(Generate(Parse(text).value), path).None?
  {
    hide Components, StripVerb, Pieces, Generate, DeepLast, Execute, Consume;
    var t := Parse(text).value;
    ParsedNonEmpty(text);
    var head := StripVerb(Components(path), VerbText(t.verb));
    if head.Some? {
      ExecuteGenerated(t, head.value);
      StarvedAfterDeep(Pieces(t.segments), head.value);
    }
    GeneratedVerb(t);
  }

  lemma GeneratedVerb(t: Template)
    ensures Generate(t).verb == t.verb
  {
  }

  /** The smallest failing text and path: `**` matches no component and "b" the literal, yet there is no answer. */
  lemma MiddleDeepRejected()
    ensures var t := Template([Single(DeepWildcard), Single(Literal("b"))], None);
            Parse("/**/b") == Some(t) && Fitting(t, "/b") && Match(Generate(t), "/b").None?
  {
    var t := Template([Single(DeepWildcard), Single(Literal("b"))], None);
    var pieces := [DeepWildcard, Literal("b")];
    MiddleDeepParsed();
    MiddleDeepPieces();
    MiddleDeepCut();
    assert !DeepLast(pieces) by { assert pieces[1..] == [Literal("b")] && Literal("b") in pieces[1..]; }
    NeverMatches("/**/b", "/b");
  }

  lemma MiddleDeepParsed()
    ensures Parse("/**/b") == Some(Template([Single(DeepWildcard), Single(Literal("b"))], None))
  {
    var texts, segments := ["**", "b"], [Single(DeepWildcard), Single(Literal("b"))];
    JoinConcat(["**"], ["b"], '/');
    assert ["**"] + ["b"] == texts;
    assert Join(["**"], '/') == "**" && Join(["b"], '/') == "b";
    assert Join(texts, '/') == "**/b";
    assert Render(texts, None) == "/**/b";
    ParseRender(texts, segments, None);
  }

  lemma MiddleDeepPieces()
    ensures Pieces([Single(DeepWildcard), Single(Literal("b"))]) == [DeepWildcard, Literal("b")]
  {
    var segments := [Single(DeepWildcard), Single(Literal("b"))];
    assert segments[1..] == [segments[1]] && segments[1..][1..] == [];
  }

  lemma MiddleDeepCut()
    ensures StripVerb(Components("/b"), "") == Some(["b"]) && HasCut([DeepWildcard, Literal("b")], ["b"])
  {
    ComponentsOfPath(["b"]);
    assert Join(["b"], '/') == "b" && "/" + "b" == "/b";
    assert IsCut([DeepWildcard, Literal("b")], ["b"], [[], ["b"]]) by {
      assert [[], ["b"]][1..] == [["b"]] && Flatten([["b"]]) == ["b"] + Flatten([]);
    }
  }

  // ----- a `**` that matches nothing -----

  /** The smallest text and path where the captured value is not a join of components: a slash is left over. */
  lemma DeepMatchedNothing()
    ensures var t := Template([Variable("name", [Literal("foo"), DeepWildcard])], None);
            && Parse("/{name=foo/**}") == Some(t)
            && Match(Generate(t), "/foo") == Some(map["name" := "foo/"])
  {
    var segments := [Variable("name", [Literal("foo"), DeepWildcard])];
    var slices := [["foo"], []];
    DeepVariableParsed();
    DeepVariableBinds();
    DeepVariableCaptures();
    hide *;
    ExpandMatch("/{name=foo/**}", slices);
  }

  lemma DeepVariableParsed()
    ensures Parse("/{name=foo/**}") == Some(Template([Variable("name", [Literal("foo"), DeepWildcard])], None))
  {
    var text, segment := "{name=foo/**}", Variable("name", [Literal("foo"), DeepWildcard]);
    DeepPatternText();
    DeepVariableText();
    hide PieceTexts, Join, Parse;
    JoinedAlone(text);
    assert SpellsAll([text], [segment]);
    ParseRender([text], [segment], None);
  }

  lemma DeepPatternText()
    ensures Join(PieceTexts([Literal("foo"), DeepWildcard]), '/') == "foo/**"
  {
    var pieces, texts := [Literal("foo"), DeepWildcard], ["foo", "**"];
    assert pieces[1..] == [DeepWildcard] && [DeepWildcard][1..] == [];
    assert PieceTexts([DeepWildcard]) == ["**"] + PieceTexts([]);
    assert PieceTexts(pieces) == ["foo"] + PieceTexts([DeepWildcard]) == texts;
    assert texts[1..] == ["**"];
    assert Join(texts, '/') == "foo" + ['/'] + "**" == "foo/**";
  }

  lemma DeepVariableText()
    ensures "{name=foo/**}" == "{" + "name" + "=" + "foo/**" + "}"
    ensures "/" + "{name=foo/**}" + "" == "/{name=foo/**}" && ':' !in "{name=foo/**}"
  {
  }

  lemma JoinedAlone(text: string)
    ensures Join([text], '/') == text
  {
  }

  lemma DeepVariableBinds()
    ensures var t := Template([Variable("name", [Literal("foo"), DeepWildcard])], None);
            Binds(t, [["foo"], []]) && Expand([["foo"], []], None) == "/foo"
  {
    var segments, slices := [Variable("name", [Literal("foo"), DeepWildcard])], [["foo"], []];
    assert segments[1..] == [] && Pieces(segments) == [Literal("foo"), DeepWildcard];
    assert slices[1..] == [[]] && Flatten<string>([[]]) == [] + Flatten<string>([]);
    assert Flatten(slices) == ["foo"];
    JoinedAlone("foo");
    assert "/" + "foo" + "" == "/foo";
  }

  lemma DeepVariableCaptures()
    ensures var segments := [Variable("name", [Literal("foo"), DeepWildcard])];
            && |Pieces(segments)| == |[["foo"], []]|
            && Captures(segments, Joined([["foo"], []]), map[]) == map["name" := "foo/"]
  {
    var segments, slices := [Variable("name", [Literal("foo"), DeepWildcard])], [["foo"], []];
    assert segments[1..] == [] && Pieces(segments) == [Literal("foo"), DeepWildcard];
    assert slices[1..] == [[]];
    assert Joined([[]]) == [""] + Joined([]);
    var values := Joined(slices);
    assert values == ["foo", ""];
    assert values[..2] == values && values[2..] == [];
    assert values[1..] == [""];
    assert Join(values, '/') == "foo" + ['/'] + "" == "foo/";
    assert Captures(segments, values, map[]) == Captures([], [], map["name" := "foo/"]);
  }
}
