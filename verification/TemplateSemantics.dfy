/** What a template means, and that its bytecode means the same. */
module TemplateSemantics {
  import opened Text
  import opened PathTemplate
  import opened PathCompiler
  import opened PatternMatcher
  import opened Bytecode

  // ----- meaning -----

  /** `*` matches one component, a literal an equal one, `**` any number. */
  predicate Fits(piece: Piece, slice: seq<string>)
  {
    match piece
    case Wildcard => |slice| == 1
    case Literal(text) => slice == [text]
    case DeepWildcard => true
  }

  /** A cut of the components into one fitting slice per piece. */
  ghost predicate IsCut(pieces: seq<Piece>, components: seq<string>, slices: seq<seq<string>>)
  {
    && |slices| == |pieces|
    && (forall i :: 0 <= i < |pieces| ==> Fits(pieces[i], slices[i]))
    && Flatten(slices) == components
  }

  ghost predicate HasCut(pieces: seq<Piece>, components: seq<string>)
  {
    exists slices :: IsCut(pieces, components, slices)
  }

  /** `**` at most once and only as the last piece: the published grammar. */
  predicate DeepOnlyLast(pieces: seq<Piece>)
  {
    forall i :: 0 <= i < |pieces| - 1 ==> !pieces[i].DeepWildcard?
  }

  predicate NoDeep(pieces: seq<Piece>)
  {
    forall p <- pieces :: !p.DeepWildcard?
  }

  /** The greedy pass gets through all pieces and all components. */
  predicate Accepts(pieces: seq<Piece>, tail: nat, components: seq<string>)
  {
    var c := Consume(pieces, tail, components);
    c.Some? && c.value.rest == []
  }

  // ----- the greedy pass finds a cut -----

  lemma {:induction false} ConsumeFlattens(pieces: seq<Piece>, tail: nat, components: seq<string>)
    requires Consume(pieces, tail, components).Some?
    ensures var c := Consume(pieces, tail, components).value; components == Flatten(c.slices) + c.rest
    decreases |pieces|
  {
    if pieces != [] {
      var n := Takes(pieces[0], tail, components).value;
      ConsumeFlattens(pieces[1..], tail, components[n..]);
      var later := Consume(pieces[1..], tail, components[n..]).value;
      assert ([components[..n]] + later.slices)[1..] == later.slices;
    }
  }

  lemma {:induction false} ConsumeFits(pieces: seq<Piece>, tail: nat, components: seq<string>, i: nat)
    requires Consume(pieces, tail, components).Some? && i < |pieces|
    ensures Fits(pieces[i], Consume(pieces, tail, components).value.slices[i])
    decreases |pieces|
  {
    var n := Takes(pieces[0], tail, components).value;
    if i > 0 {
      ConsumeFits(pieces[1..], tail, components[n..], i - 1);
    }
  }

  lemma {:induction false} AcceptsIsCut(pieces: seq<Piece>, tail: nat, components: seq<string>)
    requires Accepts(pieces, tail, components)
    ensures IsCut(pieces, components, Consume(pieces, tail, components).value.slices)
  {
    ConsumeFlattens(pieces, tail, components);
    var slices := Consume(pieces, tail, components).value.slices;
    forall i | 0 <= i < |pieces| ensures Fits(pieces[i], slices[i]) { ConsumeFits(pieces, tail, components, i); }
    assert Flatten(slices) + [] == Flatten(slices);
  }

  lemma CutTail(pieces: seq<Piece>, components: seq<string>, slices: seq<seq<string>>)
    requires IsCut(pieces, components, slices) && pieces != []
    ensures |slices| == |pieces| && Fits(pieces[0], slices[0])
    ensures |slices[0]| <= |components|
    ensures components[..|slices[0]|] == slices[0]
    ensures IsCut(pieces[1..], components[|slices[0]|..], slices[1..])
  {
    assert components == slices[0] + Flatten(slices[1..]);
  }

  lemma CutCons(pieces: seq<Piece>, slice: seq<string>, components: seq<string>,
      slices: seq<seq<string>>)
    requires pieces != [] && Fits(pieces[0], slice)
    requires IsCut(pieces[1..], components, slices)
    ensures IsCut(pieces, slice + components, [slice] + slices)
  {
    assert ([slice] + slices)[1..] == slices;
  }

  lemma CutNothing(components: seq<string>, slices: seq<seq<string>>)
    requires IsCut([], components, slices)
    ensures components == [] && slices == []
  {
  }

  /** Every cut of a run of `**` is found: the first takes all, the others nothing. */
  lemma DeepRunAccepts(pieces: seq<Piece>, components: seq<string>)
    requires forall p <- pieces :: p.DeepWildcard?
    requires pieces != [] || components == []
    ensures Accepts(pieces, 0, components)
    decreases |pieces|
  {
    if pieces != [] {
      assert pieces[0] in pieces;
      assert forall p <- pieces[1..] :: p in pieces;
      assert components[|components|..] == [];
      DeepRunAccepts(pieces[1..], []);
    }
  }

  /** With nothing but `**` after a `**`, a path with a cut is accepted. */
  lemma {:induction false} CutIsAccepted(pieces: seq<Piece>, components: seq<string>, slices: seq<seq<string>>)
    requires IsCut(pieces, components, slices) && DeepLast(pieces)
    ensures Accepts(pieces, 0, components)
    ensures DeepOnlyLast(pieces) ==> Consume(pieces, 0, components).value.slices == slices
    decreases |pieces|
  {
    hide IsCut, Flatten;
    if pieces == [] {
      CutNothing(components, slices);
    } else {
      CutTail(pieces, components, slices);
      if pieces[0].DeepWildcard? {
        forall p | p in pieces ensures p.DeepWildcard? { if p != pieces[0] { assert p in pieces[1..]; } }
        DeepRunAccepts(pieces, components);
        if |pieces| == 1 {
          CutNothing(components[|slices[0]|..], slices[1..]);
          assert slices == [slices[0]] && components[..|components|] == components;
        }
      } else {
        assert components[..1] == slices[0];
        assert |slices[0]| == 1;
        CutIsAccepted(pieces[1..], components[1..], slices[1..]);
        assert slices == [slices[0]] + slices[1..];
        assert DeepOnlyLast(pieces) ==> DeepOnlyLast(pieces[1..]);
      }
    }
  }

  lemma {:induction false} GrammarIsDeepLast(pieces: seq<Piece>)
    requires DeepOnlyLast(pieces)
    ensures DeepLast(pieces)
  {
    if |pieces| > 1 { GrammarIsDeepLast(pieces[1..]); }
  }

  // ----- the compiled template means what it says -----

  /**
   * Compiler correctness, for every text that compiles and every path. What the bytecode accepts has a cut, and
   * the captures are that cut's. Conversely every cut is found as long as only `**` follows a `**`; and when the
   * template obeys the grammar the cut is unique, so its captures are the answer.
   */
  lemma CompiledMeaning(text: string, path: string)
    requires Parse(text).Some?
    ensures var t := Parse(text).value;
            var answer := Match(Generate(t), path);
            var pieces, head := Pieces(t.segments), StripVerb(Components(path), VerbText(t.verb));
            && (answer.Some? ==>
                  && head.Some?
                  && exists slices :: IsCut(pieces, head.value, slices)
                       && answer.value == Captures(t.segments, Joined(slices), map[]))
            && (head.Some? && HasCut(pieces, head.value) && DeepLast(pieces) ==> answer.Some?)
            && (head.Some? && DeepOnlyLast(pieces) ==>
                  forall slices :: IsCut(pieces, head.value, slices) ==>
                    answer == Some(Captures(t.segments, Joined(slices), map[])))
  {
    var t := Parse(text).value;
    var pieces, head := Pieces(t.segments), StripVerb(Components(path), VerbText(t.verb));
    ParsedNonEmpty(text);
    if head.Some? {
      ExecuteGenerated(t, head.value);
      if Match(Generate(t), path).Some? {
        AcceptsIsCut(pieces, 0, head.value);
      }
      if DeepLast(pieces) && HasCut(pieces, head.value) {
        var slices :| IsCut(pieces, head.value, slices);
        CutIsAccepted(pieces, head.value, slices);
      }
      if DeepOnlyLast(pieces) {
        GrammarIsDeepLast(pieces);
        forall slices | IsCut(pieces, head.value, slices)
          ensures Match(Generate(t), path) == Some(Captures(t.segments, Joined(slices), map[]))
        {
          CutIsAccepted(pieces, head.value, slices);
        }
      }
    }
  }

  // ----- a piece behind a `**` -----

  /** Once a `**` has taken everything, a later `*` or literal finds nothing left. */
  lemma {:induction false} StarvedAfterDeep(pieces: seq<Piece>, components: seq<string>)
    requires !DeepLast(pieces)
    ensures Consume(pieces, 0, components).None?
    decreases |pieces|
  {
    var n := Takes(pieces[0], 0, components);
    if n.Some? {
      if DeepLast(pieces[1..]) {
        assert components[n.value..] == [];
        NothingLeft(pieces[1..]);
      } else {
        StarvedAfterDeep(pieces[1..], components[n.value..]);
      }
    }
  }

  lemma {:induction false} NothingLeft(pieces: seq<Piece>)
    requires exists p <- pieces :: !p.DeepWildcard?
    ensures Consume(pieces, 0, []).None?
    decreases |pieces|
  {
    if pieces[0].DeepWildcard? {
      var p :| p in pieces && !p.DeepWildcard?;
      assert p in pieces[1..];
      NothingLeft(pieces[1..]);
    }
  }

  /** Every list of pieces has components that it can be cut over, made of nothing but its literals and empty ones. */
  lemma SomeCut(pieces: seq<Piece>) returns (components: seq<string>)
    ensures HasCut(pieces, components)
    ensures forall c <- components :: c == "" || Literal(c) in pieces
    ensures (exists p <- pieces :: !p.DeepWildcard?) ==> components != []
  {
    if pieces == [] {
      components := [];
      assert IsCut(pieces, [], []);
    } else {
      assert forall p <- pieces :: p == pieces[0] || p in pieces[1..];
      var rest := SomeCut(pieces[1..]);
      var slices :| IsCut(pieces[1..], rest, slices);
      var slice := match pieces[0]
        case Wildcard => [""]
        case Literal(text) => [text]
        case DeepWildcard => [];
      CutCons(pieces, slice, rest, slices);
      components := slice + rest;
    }
  }

  // ----- one `**` anywhere, any tail length -----

  lemma CutLength(pieces: seq<Piece>, components: seq<string>, slices: seq<seq<string>>)
    requires IsCut(pieces, components, slices) && NoDeep(pieces)
    ensures |components| == |pieces|
    decreases |pieces|
  {
    if pieces != [] {
      assert pieces[0] in pieces;
      CutTail(pieces, components, slices);
      assert forall p <- pieces[1..] :: p in pieces;
      CutLength(pieces[1..], components[|slices[0]|..], slices[1..]);
    }
  }

  lemma PlainDecision(pieces: seq<Piece>, tail: nat, components: seq<string>)
    requires NoDeep(pieces)
    ensures Accepts(pieces, tail, components) <==> HasCut(pieces, components)
    decreases |pieces|
  {
    if pieces == [] {
      if components == [] { assert IsCut(pieces, components, []); }
    } else {
      assert pieces[0] in pieces && forall p <- pieces[1..] :: p in pieces;
      StepDecision(pieces, tail, components);
      if components != [] { PlainDecision(pieces[1..], tail, components[1..]); }
    }
  }

  /** A first piece that is not `**` takes one component, in the greedy pass as in every cut. */
  lemma StepDecision(pieces: seq<Piece>, tail: nat, components: seq<string>)
    requires pieces != [] && !pieces[0].DeepWildcard?
    ensures Accepts(pieces, tail, components) <==>
            components != [] && Fits(pieces[0], components[..1]) && Accepts(pieces[1..], tail, components[1..])
    ensures HasCut(pieces, components) <==>
            components != [] && Fits(pieces[0], components[..1]) && HasCut(pieces[1..], components[1..])
  {
    if components != [] && Fits(pieces[0], components[..1]) && HasCut(pieces[1..], components[1..]) {
      var slices :| IsCut(pieces[1..], components[1..], slices);
      CutCons(pieces, components[..1], components[1..], slices);
      assert components[..1] + components[1..] == components;
    }
    if HasCut(pieces, components) {
      var slices :| IsCut(pieces, components, slices);
      CutTail(pieces, components, slices);
    }
  }

  lemma DeepDecision(pieces: seq<Piece>, tail: nat, components: seq<string>)
    requires pieces != [] && pieces[0].DeepWildcard? && NoDeep(pieces[1..])
    ensures Accepts(pieces, tail, components) <==> tail == |pieces| - 1 && HasCut(pieces, components)
  {
    var rest := pieces[1..];
    if Accepts(pieces, tail, components) {
      AcceptsIsCut(pieces, tail, components);
      var left := components[|components| - tail..];
      AcceptsIsCut(rest, tail, left);
      CutLength(rest, left, Consume(rest, tail, left).value.slices);
    }
    if tail == |pieces| - 1 && HasCut(pieces, components) {
      var slices :| IsCut(pieces, components, slices);
      CutTail(pieces, components, slices);
      var left := components[|slices[0]|..];
      CutLength(rest, left, slices[1..]);
      assert left == components[|components| - tail..];
      PlainDecision(rest, tail, left);
    }
  }

  lemma OneDeepDecision(pieces: seq<Piece>, at: nat, tail: nat, components: seq<string>)
    requires at < |pieces| && pieces[at].DeepWildcard? && NoDeep(pieces[..at]) && NoDeep(pieces[at + 1..])
    ensures Accepts(pieces, tail, components) <==> tail == |pieces| - at - 1 && HasCut(pieces, components)
    decreases at
  {
    if at == 0 {
      DeepDecision(pieces, tail, components);
    } else {
      assert pieces[0] in pieces[..at];
      StepDecision(pieces, tail, components);
      if components != [] {
        assert pieces[1..][..at - 1] == pieces[..at][1..];
        assert forall p <- pieces[..at][1..] :: p in pieces[..at];
        assert pieces[1..][at..] == pieces[at + 1..];
        OneDeepDecision(pieces[1..], at - 1, tail, components[1..]);
      }
    }
  }

  /**
   * Deep wildcard decision: stack-safe code with one `PushM` accepts components exactly when its tail length is
   * the number of consuming ops after it and some cut exists. One greedy pass decides; no backtracking is needed.
   */
  lemma {:induction false} DeepWildcardDecision(p: Pattern, at: nat, components: seq<string>)
    requires StackSafe(p)
    requires var shape := Shape(p, p.ops);
             at < |shape| && shape[at].DeepWildcard? && NoDeep(shape[..at]) && NoDeep(shape[at + 1..])
    ensures var shape := Shape(p, p.ops);
            Execute(p, components).Running? <==> p.tailLen == |shape| - at - 1 && HasCut(shape, components)
  {
    Simulate(p, components, p.ops, START);
    assert components[0..] == components;
    OneDeepDecision(Shape(p, p.ops), at, p.tailLen, components);
  }
}
