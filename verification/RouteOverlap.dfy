/** When two compiled templates compete for a path. */
module RouteOverlap {
  import opened Text
  import opened PathTemplate
  import opened PathCompiler
  import opened PatternMatcher
  import opened Bytecode
  import opened TemplateSemantics
  import opened PathRoundTrip
  import opened Faithfulness

  /** Decides piece by piece whether two templates have components in common. */
  predicate Compatible(a: seq<Piece>, b: seq<Piece>)
  {
    if a == [] then b == [] || b == [DeepWildcard]
    else if b == [] then a == [DeepWildcard]
    else if a[0].DeepWildcard? || b[0].DeepWildcard? then true
    else if a[0].Literal? && b[0].Literal? && a[0] != b[0] then false
    else Compatible(a[1..], b[1..])
  }

  /** `**` only last, and literals that a component can equal. */
  ghost predicate Regular(pieces: seq<Piece>)
  {
    DeepOnlyLast(pieces) && forall p <- pieces :: p.Literal? ==> '/' !in p.text
  }

  lemma RegularTail(pieces: seq<Piece>)
    requires Regular(pieces) && pieces != []
    ensures Regular(pieces[1..]) && '/' !in Sample(pieces[0])
    ensures pieces[0].DeepWildcard? ==> pieces == [DeepWildcard]
  {
    assert pieces[0] in pieces;
    assert forall p <- pieces[1..] :: p in pieces;
    assert forall i :: 0 <= i < |pieces[1..]| ==> pieces[1..][i] == pieces[i + 1];
  }

  function Sample(piece: Piece): string
  {
    if piece.Literal? then piece.text else "x"
  }

  lemma AcceptsCons(pieces: seq<Piece>, component: string, rest: seq<string>)
    requires pieces != [] && !pieces[0].DeepWildcard? && Fits(pieces[0], [component])
    requires Accepts(pieces[1..], 0, rest)
    ensures Accepts(pieces, 0, [component] + rest)
  {
    var components := [component] + rest;
    assert components[..1] == [component] && components[1..] == rest;
    StepDecision(pieces, 0, components);
  }

  lemma AcceptsAll(components: seq<string>)
    ensures Accepts([DeepWildcard], 0, components)
  {
    DeepRunAccepts([DeepWildcard], components);
  }

  /** A regular template accepts some slash-free components, at least one unless it has no piece. */
  lemma SampleAccepted(pieces: seq<Piece>) returns (components: seq<string>)
    requires Regular(pieces)
    ensures Accepts(pieces, 0, components) && AllFree(components, '/') && (pieces != [] ==> components != [])
    decreases |pieces|
  {
    if pieces == [] {
      components := [];
    } else {
      RegularTail(pieces);
      if pieces[0].DeepWildcard? {
        components := ["x"];
        AcceptsAll(components);
      } else {
        var rest := SampleAccepted(pieces[1..]);
        components := [Sample(pieces[0])] + rest;
        AcceptsCons(pieces, Sample(pieces[0]), rest);
      }
    }
  }

  lemma CompatibleSample(a: seq<Piece>, b: seq<Piece>) returns (components: seq<string>)
    requires Regular(a) && Regular(b) && Compatible(a, b)
    ensures Accepts(a, 0, components) && Accepts(b, 0, components) && AllFree(components, '/')
    ensures a != [] && b != [] ==> components != []
    decreases |a|
  {
    if a == [] || b == [] {
      components := [];
      AcceptsAll([]);
    } else {
      RegularTail(a);
      RegularTail(b);
      if a[0].DeepWildcard? {
        components := SampleAccepted(b);
        AcceptsAll(components);
      } else if b[0].DeepWildcard? {
        components := SampleAccepted(a);
        AcceptsAll(components);
      } else {
        var rest := CompatibleSample(a[1..], b[1..]);
        var component := if a[0].Literal? then a[0].text else Sample(b[0]);
        AcceptsCons(a, component, rest);
        AcceptsCons(b, component, rest);
        components := [component] + rest;
      }
    }
  }

  lemma {:induction false} CommonCompatible(a: seq<Piece>, b: seq<Piece>, components: seq<string>)
    requires Regular(a) && Regular(b)
    requires Accepts(a, 0, components) && Accepts(b, 0, components)
    ensures Compatible(a, b)
    decreases |a|
  {
    if a != [] { RegularTail(a); }
    if b != [] { RegularTail(b); }
    if a == [] && b != [] {
      if !b[0].DeepWildcard? { StepDecision(b, 0, components); }
    } else if b == [] && a != [] {
      if !a[0].DeepWildcard? { StepDecision(a, 0, components); }
    } else if a != [] && !a[0].DeepWildcard? && !b[0].DeepWildcard? {
      StepDecision(a, 0, components);
      StepDecision(b, 0, components);
      CommonCompatible(a[1..], b[1..], components[1..]);
    }
  }

  /** What matching one expanded path says about the components. */
  lemma MatchComponents(text: string, path: string)
    requires Parse(text).Some?
    ensures var t := Parse(text).value;
            var head := StripVerb(Components(path), VerbText(t.verb));
            Match(Generate(t), path).Some? <==> head.Some? && Accepts(Pieces(t.segments), 0, head.value)
  {
    var t := Parse(text).value;
    ParsedNonEmpty(text);
    var head := StripVerb(Components(path), VerbText(t.verb));
    if head.Some? { ExecuteGenerated(t, head.value); }
  }

  // ----- a template without a verb against one with a verb -----

  /** The components with a colon and the verb behind the last one. */
  function Marked(head: seq<string>, verb: string): seq<string>
    requires head != []
  {
    head[..|head| - 1] + [head[|head| - 1] + (":" + verb)]
  }

  /** Some component that ends in the verb fits the piece. */
  predicate EndsIn(piece: Piece, verb: string)
  {
    piece.Literal? ==>
      |piece.text| > |verb| && piece.text[|piece.text| - |verb| - 1..] == ":" + verb
  }

  /** Some component fits q, and with the verb behind it fits p. */
  predicate LastAgree(p: Piece, q: Piece, verb: string)
  {
    EndsIn(p, verb) && (p.Literal? && q.Literal? ==> p.text == q.text + (":" + verb))
  }

  /** One component can be all there is. */
  predicate Alone(pieces: seq<Piece>)
    requires pieces != []
  {
    pieces[1..] == [] || pieces[1..] == [DeepWildcard]
  }

  /** Decides whether some components are accepted by b, and with the verb behind them by a. */
  predicate VerbCompatible(a: seq<Piece>, b: seq<Piece>, verb: string)
    decreases |a|
  {
    if a == [] || b == [] then false
    else if a[0].DeepWildcard? then true
    else if b[0].DeepWildcard? then (|a| == 1 && EndsIn(a[0], verb)) || VerbCompatible(a[1..], b, verb)
    else
      || (Alone(a) && Alone(b) && LastAgree(a[0], b[0], verb))
      || (!(a[0].Literal? && b[0].Literal? && a[0] != b[0]) && VerbCompatible(a[1..], b[1..], verb))
  }

  ghost predicate Meets(a: seq<Piece>, b: seq<Piece>, verb: string, head: seq<string>)
  {
    && head != [] && AllFree(head, '/')
    && Accepts(b, 0, head) && Accepts(a, 0, Marked(head, verb))
  }

  lemma AcceptsAlone(pieces: seq<Piece>, component: string)
    requires pieces != [] && !pieces[0].DeepWildcard? && Alone(pieces) && Fits(pieces[0], [component])
    ensures Accepts(pieces, 0, [component])
  {
    if pieces[1..] == [DeepWildcard] { AcceptsAll([]); }
    AcceptsCons(pieces, component, []);
    assert [component] + [] == [component];
  }

  lemma AloneIfAccepted(pieces: seq<Piece>, component: string)
    requires Regular(pieces) && pieces != [] && !pieces[0].DeepWildcard? && Accepts(pieces, 0, [component])
    ensures Alone(pieces) && Fits(pieces[0], [component])
  {
    StepDecision(pieces, 0, [component]);
    assert [component][..1] == [component] && [component][1..] == [];
    RegularTail(pieces);
    var rest := pieces[1..];
    if rest != [] {
      RegularTail(rest);
      if !rest[0].DeepWildcard? { StepDecision(rest, 0, []); }
    }
  }

  /** The text in front of the verb in a component that fits p. */
  function Stem(p: Piece, q: Piece, verb: string): string
    requires LastAgree(p, q, verb)
  {
    if p.Literal? then p.text[..|p.text| - |verb| - 1] else Sample(q)
  }

  lemma StemFits(p: Piece, q: Piece, verb: string)
    requires LastAgree(p, q, verb) && !p.DeepWildcard?
    ensures Fits(p, [Stem(p, q, verb) + (":" + verb)]) && Fits(q, [Stem(p, q, verb)])
    ensures '/' !in Sample(p) && '/' !in Sample(q) ==> '/' !in Stem(p, q, verb)
  {
    if p.Literal? {
      var n := |p.text| - |verb| - 1;
      assert p.text == p.text[..n] + p.text[n..];
      if q.Literal? { assert q.text == p.text[..n]; }
    }
  }

  lemma MarkedOne(component: string, verb: string)
    ensures Marked([component], verb) == [component + (":" + verb)]
  {
  }

  lemma MarkedCons(component: string, head: seq<string>, verb: string)
    requires head != []
    ensures [component] + head != [] && Marked([component] + head, verb) == [component] + Marked(head, verb)
  {
  }

  lemma MeetsOne(a: seq<Piece>, b: seq<Piece>, p: Piece, verb: string) returns (head: seq<string>)
    requires Regular(a) && Regular(b) && a != [] && b != [] && a[0] == p && !p.DeepWildcard? && Alone(a)
    requires LastAgree(p, b[0], verb) && (b[0].DeepWildcard? || Alone(b))
    ensures Meets(a, b, verb, head)
  {
    hide Accepts;
    RegularTail(a);
    RegularTail(b);
    var stem := Stem(p, b[0], verb);
    StemFits(p, b[0], verb);
    head := [stem];
    MarkedOne(stem, verb);
    AcceptsAlone(a, stem + (":" + verb));
    if b[0].DeepWildcard? { AcceptsAll(head); } else { AcceptsAlone(b, stem); }
  }

  lemma MeetsSample(a: seq<Piece>, b: seq<Piece>, verb: string) returns (head: seq<string>)
    requires Regular(a) && Regular(b) && VerbCompatible(a, b, verb)
    ensures Meets(a, b, verb, head)
    decreases |a|
  {
    hide Accepts, Marked, LastAgree, Fits;
    RegularTail(a);
    RegularTail(b);
    if a[0].DeepWildcard? {
      head := SampleAccepted(b);
      AcceptsAll(Marked(head, verb));
    } else if b[0].DeepWildcard? {
      if |a| == 1 && EndsIn(a[0], verb) {
        LastWithDeep(a[0], verb);
        head := MeetsOne(a, b, a[0], verb);
      } else {
        var rest := MeetsSample(a[1..], b, verb);
        SampleFits(a[0]);
        AcceptsCons(a, Sample(a[0]), Marked(rest, verb));
        MarkedCons(Sample(a[0]), rest, verb);
        head := [Sample(a[0])] + rest;
        AcceptsAll(head);
      }
    } else if Alone(a) && Alone(b) && LastAgree(a[0], b[0], verb) {
      head := MeetsOne(a, b, a[0], verb);
    } else {
      var rest := MeetsSample(a[1..], b[1..], verb);
      var component := if a[0].Literal? then Sample(a[0]) else Sample(b[0]);
      SampleFits(a[0]);
      SampleFits(b[0]);
      WildcardFits(a[0], b[0]);
      AcceptsCons(a, component, Marked(rest, verb));
      AcceptsCons(b, component, rest);
      MarkedCons(component, rest, verb);
      head := [component] + rest;
    }
  }

  lemma LastWithDeep(p: Piece, verb: string)
    requires EndsIn(p, verb)
    ensures LastAgree(p, DeepWildcard, verb)
  {
  }

  lemma SampleFits(p: Piece)
    ensures Fits(p, [Sample(p)])
  {
  }

  lemma WildcardFits(p: Piece, q: Piece)
    requires !(p.Literal? && q.Literal? && p != q)
    ensures var component := if p.Literal? then Sample(p) else Sample(q);
            Fits(p, [component]) && Fits(q, [component])
  {
  }

  lemma {:induction false} MeetsCompatible(a: seq<Piece>, b: seq<Piece>, verb: string, head: seq<string>)
    requires Regular(a) && Regular(b) && Meets(a, b, verb, head)
    ensures VerbCompatible(a, b, verb)
    decreases |a|
  {
    hide Marked;
    if a != [] { RegularTail(a); }
    if b != [] { RegularTail(b); }
    if a != [] && b != [] && !a[0].DeepWildcard? {
      var component, rest := head[0], head[1..];
      if rest == [] {
        assert head == [component];
        MarkedOne(component, verb);
        AloneIfAccepted(a, component + (":" + verb));
        FitsEnd(a[0], component, verb);
        if !b[0].DeepWildcard? { AloneIfAccepted(b, component); }
      } else {
        assert head == [component] + rest;
        MarkedCons(component, rest, verb);
        StepDecision(a, 0, Marked(head, verb));
        var marked := [component] + Marked(rest, verb);
        assert marked[1..] == Marked(rest, verb) && marked[..1] == [component];
        assert forall c <- rest :: c in head;
        if b[0].DeepWildcard? {
          AcceptsAll(rest);
          MeetsCompatible(a[1..], b, verb, rest);
        } else {
          StepDecision(b, 0, head);
          assert head[..1] == [component];
          MeetsCompatible(a[1..], b[1..], verb, rest);
        }
      }
    } else {
      NotBothEmpty(a, b, verb, head);
    }
  }

  lemma NotBothEmpty(a: seq<Piece>, b: seq<Piece>, verb: string, head: seq<string>)
    requires Meets(a, b, verb, head)
    ensures a != [] && b != []
  {
  }

  lemma FitsEnd(p: Piece, component: string, verb: string)
    requires Fits(p, [component + (":" + verb)])
    ensures EndsIn(p, verb) && (p.Literal? ==> p.text == component + (":" + verb))
  {
  }

  // ----- a run of `**` at the end -----

  /** The pieces up to the first `**`, which stands for all that follow it. */
  function Squeeze(pieces: seq<Piece>): seq<Piece>
  {
    if pieces == [] then []
    else if pieces[0].DeepWildcard? then [DeepWildcard]
    else [pieces[0]] + Squeeze(pieces[1..])
  }

  lemma {:induction false} SqueezeAccepts(pieces: seq<Piece>, components: seq<string>)
    requires DeepLast(pieces)
    ensures Accepts(Squeeze(pieces), 0, components) <==> Accepts(pieces, 0, components)
    decreases |pieces|
  {
    if pieces != [] {
      if pieces[0].DeepWildcard? {
        assert forall p <- pieces :: p == pieces[0] || p in pieces[1..];
        DeepRunAccepts(pieces, components);
        AcceptsAll(components);
      } else {
        var squeezed := Squeeze(pieces);
        assert squeezed[0] == pieces[0] && squeezed[1..] == Squeeze(pieces[1..]);
        StepDecision(pieces, 0, components);
        StepDecision(squeezed, 0, components);
        if components != [] { SqueezeAccepts(pieces[1..], components[1..]); }
      }
    }
  }

  lemma {:induction false} SqueezeRegular(pieces: seq<Piece>)
    requires forall p <- pieces :: p.Literal? ==> '/' !in p.text
    ensures Regular(Squeeze(pieces)) && (Squeeze(pieces) == [] <==> pieces == [])
  {
    if pieces != [] && !pieces[0].DeepWildcard? {
      assert pieces[0] in pieces && forall p <- pieces[1..] :: p in pieces;
      SqueezeRegular(pieces[1..]);
      var squeezed := Squeeze(pieces);
      assert squeezed[0] == pieces[0] && squeezed[1..] == Squeeze(pieces[1..]);
      assert forall i :: 0 < i < |squeezed| ==> squeezed[i] == squeezed[1..][i - 1];
      assert forall p <- squeezed :: p == squeezed[0] || p in squeezed[1..];
    }
  }

  // ----- which templates share a path -----

  /** Some path is answered: one can fit, and only `**` follows a `**`. */
  predicate Answerable(t: Template)
  {
    Reachable(Pieces(t.segments), VerbText(t.verb)) && DeepLast(Pieces(t.segments))
  }

  lemma AnsweredReachable(text: string, path: string)
    requires Parse(text).Some? && Match(Generate(Parse(text).value), path).Some?
    ensures Answerable(Parse(text).value)
  {
    var t := Parse(text).value;
    if !DeepLast(Pieces(t.segments)) { NeverMatches(text, path); }
    MatchComponents(text, path);
    AcceptsIsCut(Pieces(t.segments), 0, StripVerb(Components(path), VerbText(t.verb)).value);
    FittingReachable(t, path);
  }

  /** Read off two templates: some path is answered by both. */
  predicate Competes(t: Template, t': Template)
  {
    var a, verb := Squeeze(Pieces(t.segments)), VerbText(t.verb);
    var b, verb' := Squeeze(Pieces(t'.segments)), VerbText(t'.verb);
    && Answerable(t) && Answerable(t')
    && if verb == verb' then Compatible(a, b)
       else if verb == "" then VerbCompatible(a, b, verb')
       else verb' == "" && VerbCompatible(b, a, verb)
  }

  ghost predicate Shared(t: Template, t': Template)
  {
    exists path :: Match(Generate(t), path).Some? && Match(Generate(t'), path).Some?
  }

  /** Answering a path is accepting its components with the squeezed pieces. */
  lemma MatchSqueezed(text: string, path: string)
    requires Parse(text).Some? && Answerable(Parse(text).value)
    ensures var t := Parse(text).value;
            var head := StripVerb(Components(path), VerbText(t.verb));
            && Regular(Squeeze(Pieces(t.segments))) && Squeeze(Pieces(t.segments)) != []
            && (Match(Generate(t), path).Some? <==>
                head.Some? && Accepts(Squeeze(Pieces(t.segments)), 0, head.value))
  {
    hide Components, StripVerb, Generate, Accepts, Match, Squeeze, DeepLast, Regular;
    var t := Parse(text).value;
    MatchComponents(text, path);
    SqueezeRegular(Pieces(t.segments));
    var head := StripVerb(Components(path), VerbText(t.verb));
    if head.Some? { SqueezeAccepts(Pieces(t.segments), head.value); }
  }

  lemma SharedSameVerb(text: string, text': string)
    requires Parse(text).Some? && Answerable(Parse(text).value)
    requires Parse(text').Some? && Answerable(Parse(text').value)
    requires VerbText(Parse(text).value.verb) == VerbText(Parse(text').value.verb)
    ensures var t, t' := Parse(text).value, Parse(text').value;
            Shared(t, t') <==> Compatible(Squeeze(Pieces(t.segments)), Squeeze(Pieces(t'.segments)))
  {
    hide Components, StripVerb, Pieces, Generate, Accepts, Match, Regular, Compatible, Squeeze, DeepLast;
    var t, t' := Parse(text).value, Parse(text').value;
    var a, b, verb := Squeeze(Pieces(t.segments)), Squeeze(Pieces(t'.segments)), VerbText(t.verb);
    ParsedVerb(text);
    if Compatible(a, b) {
      MatchSqueezed(text, "");
      MatchSqueezed(text', "");
      var components := CompatibleSample(a, b);
      var path := PathFor(components, verb);
      MatchSqueezed(text, path);
      MatchSqueezed(text', path);
    }
    if path :| Match(Generate(t), path).Some? && Match(Generate(t'), path).Some? {
      MatchSqueezed(text, path);
      MatchSqueezed(text', path);
      CommonCompatible(a, b, StripVerb(Components(path), verb).value);
    }
  }

  /** A template without a verb meets one with a verb where its last piece takes the colon and the verb as well. */
  lemma SharedWithVerb(text: string, text': string)
    requires Parse(text).Some? && Answerable(Parse(text).value)
    requires Parse(text').Some? && Answerable(Parse(text').value)
    requires VerbText(Parse(text).value.verb) == "" && VerbText(Parse(text').value.verb) != ""
    ensures var t, t' := Parse(text).value, Parse(text').value;
            Shared(t, t') <==>
            VerbCompatible(Squeeze(Pieces(t.segments)), Squeeze(Pieces(t'.segments)), VerbText(t'.verb))
  {
    hide Components, StripVerb, Pieces, Generate, Accepts, Match, Regular, VerbCompatible, Squeeze, DeepLast;
    var t, t' := Parse(text).value, Parse(text').value;
    var a, b, verb := Squeeze(Pieces(t.segments)), Squeeze(Pieces(t'.segments)), VerbText(t'.verb);
    ParsedVerb(text');
    if VerbCompatible(a, b, verb) {
      MatchSqueezed(text, "");
      MatchSqueezed(text', "");
      var head := MeetsSample(a, b, verb);
      var path := PathFor(head, verb);
      StripNoVerb(Components(path));
      MatchSqueezed(text, path);
      MatchSqueezed(text', path);
    }
    if path :| Match(Generate(t), path).Some? && Match(Generate(t'), path).Some? {
      MatchSqueezed(text, path);
      MatchSqueezed(text', path);
      StripNoVerb(Components(path));
      HeadFree(path, verb);
      var head := StripVerb(Components(path), verb).value;
      StripVerbExactly(Components(path), verb, head);
      MeetsCompatible(a, b, verb, head);
    }
  }

  /**
   * Two compiled templates answer a common path exactly when this can be read off them: nothing but `**` follows a
   * `**`, no literal or verb has a slash, and, with one verb, no two different literals stand at one index before a
   * `**` and the lengths can agree; with a verb on one side only, the same and the other side's last piece takes the
   * colon and the verb as well.
   */
  lemma OverlapExactly(text: string, text': string)
    requires Parse(text).Some? && Parse(text').Some?
    ensures Shared(Parse(text).value, Parse(text').value) <==> Competes(Parse(text).value, Parse(text').value)
  {
    hide Pieces, Generate, Match, Compatible, VerbCompatible, DeepLast, Components, Squeeze, Reachable;
    var t, t' := Parse(text).value, Parse(text').value;
    var verb, verb' := VerbText(t.verb), VerbText(t'.verb);
    if path :| Match(Generate(t), path).Some? && Match(Generate(t'), path).Some? {
      AnsweredReachable(text, path);
      AnsweredReachable(text', path);
      GeneratedVerb(t);
      GeneratedVerb(t');
      if verb != "" && verb' != "" && verb != verb' { VerbsDisjoint(Generate(t), Generate(t'), path); }
    }
    if Answerable(t) && Answerable(t') {
      if verb == verb' {
        SharedSameVerb(text, text');
      } else if verb == "" {
        SharedWithVerb(text, text');
      } else if verb' == "" {
        SharedWithVerb(text', text);
        SharedEither(t, t');
      }
    }
  }

  lemma SharedEither(t: Template, t': Template)
    ensures Shared(t, t') <==> Shared(t', t)
  {
    hide Match, Generate;
  }

  /** Patterns with different non-empty verbs never share a path. */
  lemma VerbsDisjoint(p: Pattern, p': Pattern, path: string)
    requires VerbText(p.verb) != "" && VerbText(p'.verb) != "" && VerbText(p.verb) != VerbText(p'.verb)
    ensures !(Match(p, path).Some? && Match(p', path).Some?)
  {
    var last := Components(path)[|Components(path)| - 1];
    var i := LastIndex(last, ':');
    if i.Some? { assert last[i.value + 1..] != VerbText(p.verb) || last[i.value + 1..] != VerbText(p'.verb); }
  }
}
