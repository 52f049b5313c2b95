/** From a path template to a populated request message, end to end. */
module Transcoding {
  import opened Text
  import opened PathTemplate
  import opened PathCompiler
  import opened PatternMatcher
  import opened Bytecode
  import opened TemplateSyntax
  import opened PathRoundTrip
  import opened Router
  import opened Dispatch
  import opened Registry
  import opened Setters

  /** Exactly the template's variables are captured. */
  lemma {:induction false} CapturesKeys(segments: seq<Segment>, values: seq<string>, captured: map<string, string>,
      f: string)
    requires |values| == |Pieces(segments)|
    ensures f in Captures(segments, values, captured) <==> f in captured || f in Vars(segments)
    decreases |segments|
  {
    if segments != [] {
      var first, n := segments[0], |SegmentPieces(segments[0])|;
      var next := if first.Variable? then captured[first.fieldPath := Join(values[..n], '/')] else captured;
      CapturesKeys(segments[1..], values[n..], next, f);
      assert f in next <==> f in captured || f in SegmentVars(first);
    }
  }

  lemma {:induction false} VarsConcat(a: seq<Segment>, b: seq<Segment>)
    ensures Vars(a + b) == Vars(a) + Vars(b)
  {
    if a == [] {
      assert a + b == b;
    } else {
      assert (a + b)[0] == a[0] && (a + b)[1..] == a[1..] + b;
      VarsConcat(a[1..], b);
    }
  }

  lemma {:induction false} PiecesPrefix(segments: seq<Segment>, k: nat)
    requires k < |segments|
    ensures |Pieces(segments[..k])| + |SegmentPieces(segments[k])| <= |Pieces(segments)|
    decreases |segments|
  {
    if k > 0 {
      assert segments[..k][1..] == segments[1..][..k - 1];
      PiecesPrefix(segments[1..], k - 1);
    }
  }

  /** The text a binding gives to the k-th segment: the join of what its own pieces stand for. */
  function BoundText(segments: seq<Segment>, slices: seq<seq<string>>, k: nat): string
    requires k < |segments| && |slices| == |Pieces(segments)|
  {
    PiecesPrefix(segments, k);
    Join(Joined(slices[|Pieces(segments[..k])|..][..|SegmentPieces(segments[k])|]), '/')
  }

  lemma UnrelatedDistinct(vars: seq<string>, i: nat, j: nat)
    requires PairwiseUnrelated(vars) && i < |vars| && j < |vars| && i != j
    ensures vars[i] != vars[j]
  {
    assert Unrelated(Split(vars[i], '.'), Split(vars[j], '.'));
  }

  /** With unrelated field paths no variable is bound twice. */
  lemma {:induction false} VariableOnce(segments: seq<Segment>, k: nat)
    requires k < |segments| && segments[k].Variable? && PairwiseUnrelated(Vars(segments))
    ensures segments[k].fieldPath in Vars(segments)
    ensures segments[k].fieldPath !in Vars(segments[k + 1..])
  {
    hide PairwiseUnrelated;
    var f, before, later := segments[k].fieldPath, segments[..k], segments[k + 1..];
    var rest := [segments[k]] + later;
    assert segments == before + rest && rest[1..] == later;
    VarsConcat(before, rest);
    var n, vars := |Vars(before)|, Vars(segments);
    assert vars == Vars(before) + ([f] + Vars(later));
    assert vars[n] == f;
    forall j | 0 <= j < |Vars(later)| ensures Vars(later)[j] != f {
      UnrelatedDistinct(vars, n, n + 1 + j);
    }
  }

  lemma {:induction false} BoundCapture(segments: seq<Segment>, slices: seq<seq<string>>, k: nat)
    requires k < |segments| && segments[k].Variable? && PairwiseUnrelated(Vars(segments))
    requires |slices| == |Pieces(segments)|
    ensures var captured := Captures(segments, Joined(slices), map[]);
            && segments[k].fieldPath in captured
            && captured[segments[k].fieldPath] == BoundText(segments, slices, k)
  {
    VariableOnce(segments, k);
    assert segments == segments[..k] + ([segments[k]] + segments[k + 1..]);
    CapturedSlices(segments[..k], segments[k], segments[k + 1..], slices);
  }

  /** The variables' field paths name settable fields, none a prefix of another. */
  ghost predicate Bindable<V>(env: Env<V>, inputType: string, t: Template)
  {
    && inputType in env.types && PairwiseUnrelated(Vars(t.segments))
    && forall v <- Vars(t.segments) :: Settable(env, inputType, Split(v, '.'))
  }

  /**
   * The emitted setters, run on these captures from the message the generated code starts from, put the text of
   * its own slices into every bound field and leave every field as it was whose path is unrelated to the bound ones,
   * siblings inside a created submessage included.
   */
  ghost predicate Delivered<V>(env: Env<V>, t: Template, slices: seq<seq<string>>, inputType: string, start: Message<V>,
      captured: map<string, string>)
    requires |slices| == |Pieces(t.segments)|
  {
    var after := Populate(env, inputType, ParamsOf(env.types, inputType, Vars(t.segments)), captured, start);
    && after.Some? && Conforms(env, inputType, after.value)
    && (forall k :: 0 <= k < |t.segments| && t.segments[k].Variable? ==>
          Receives(env, inputType, start, after.value, Split(t.segments[k].fieldPath, '.'),
                   BoundText(t.segments, slices, k)))
    && (forall q :: UnrelatedToAll(Vars(t.segments), q) ==> SameAt(env, inputType, start, after.value, q))
  }

  lemma {:induction false} CapturesDeliver<V>(env: Env<V>, t: Template, slices: seq<seq<string>>, inputType: string,
      start: Message<V>)
    requires Bindable(env, inputType, t) && Conforms(env, inputType, start) && |slices| == |Pieces(t.segments)|
    ensures Delivered(env, t, slices, inputType, start, Captures(t.segments, Joined(slices), map[]))
  {
    hide Settable, Conforms, Populate, Captures, Receives, SameAt, PairwiseUnrelated, BoundText, Vars, Pieces;
    var vars, captured := Vars(t.segments), Captures(t.segments, Joined(slices), map[]);
    forall v | v in vars ensures v in captured { CapturesKeys(t.segments, Joined(slices), map[], v); }
    PopulateReads(env, inputType, vars, captured, start);
    var after := Populate(env, inputType, ParamsOf(env.types, inputType, vars), captured, start).value;
    forall k | 0 <= k < |t.segments| && t.segments[k].Variable?
      ensures Receives(env, inputType, start, after, Split(t.segments[k].fieldPath, '.'),
                       BoundText(t.segments, slices, k))
    {
      VariableOnce(t.segments, k);
      BoundCapture(t.segments, slices, k);
    }
  }

  /** End to end for one pattern: expand a compiled template with slices, match the path, run the emitted setters. */
  lemma {:induction false} Transcode<V>(env: Env<V>, text: string, slices: seq<seq<string>>, inputType: string,
      body: string, decoded: Message<V>)
    requires Parse(text).Some? && Binds(Parse(text).value, slices)
    requires Bindable(env, inputType, Parse(text).value) && Conforms(env, inputType, decoded)
    ensures var t := Parse(text).value;
            var captured := Match(Generate(t), Expand(slices, t.verb));
            && captured.Some?
            && Delivered(env, t, slices, inputType, Initial(env, inputType, body, decoded), captured.value)
  {
    hide Conforms, Delivered, Captures, Match, Generate, Expand;
    var t := Parse(text).value;
    ExpandMatch(text, slices);
    DefaultConforms(env, inputType);
    CapturesDeliver(env, t, slices, inputType, Initial(env, inputType, body, decoded));
  }

  // ----- when the decoded body survives -----

  /** Every field whose path is unrelated to the bound ones reads alike in both messages. */
  ghost predicate AlikeUnbound<V>(env: Env<V>, inputType: string, t: Template, m: Message<V>, m': Message<V>)
  {
    forall q :: UnrelatedToAll(Vars(t.segments), q) ==> SameAt(env, inputType, m, m', q)
  }

  /** The message the setters leave, run on a binding's captures. */
  function Transcoded<V>(env: Env<V>, t: Template, path: string, inputType: string, body: string, decoded: Message<V>)
    : Option<Message<V>>
    requires inputType in env.types
  {
    var captured := Match(Generate(t), path);
    if captured.None? then None
    else
      Populate(env, inputType, ParamsOf(env.types, inputType, Vars(t.segments)), captured.value,
               Initial(env, inputType, body, decoded))
  }

  lemma {:induction false} TranscodedAlike<V>(env: Env<V>, text: string, slices: seq<seq<string>>, inputType: string,
      body: string, decoded: Message<V>)
    requires Parse(text).Some? && Binds(Parse(text).value, slices)
    requires Bindable(env, inputType, Parse(text).value) && Conforms(env, inputType, decoded)
    ensures var t := Parse(text).value;
            var after := Transcoded(env, t, Expand(slices, t.verb), inputType, body, decoded);
            after.Some? && AlikeUnbound(env, inputType, t, Initial(env, inputType, body, decoded), after.value)
  {
    hide Conforms, Captures, Match, Generate, Expand, Binds, Populate, Default, Vars, Receives, Read;
    Transcode(env, text, slices, inputType, body, decoded);
  }

  /**
   * The unbound fields of the request keep what the body was decoded to exactly when the selector is "*", or when
   * the decoded message has nothing in them that a default message has not.
   */
  lemma {:induction false} DecodedKeptExactly<V>(env: Env<V>, text: string, slices: seq<seq<string>>, inputType: string,
      body: string, decoded: Message<V>)
    requires Parse(text).Some? && Binds(Parse(text).value, slices)
    requires Bindable(env, inputType, Parse(text).value) && Conforms(env, inputType, decoded)
    ensures var t := Parse(text).value;
            var after := Transcoded(env, t, Expand(slices, t.verb), inputType, body, decoded);
            && after.Some?
            && (AlikeUnbound(env, inputType, t, decoded, after.value) <==>
                body == "*" || AlikeUnbound(env, inputType, t, decoded, Default(env, inputType)))
  {
    hide Conforms, Captures, Match, Generate, Expand, Binds, Populate, Default, Vars, AlikeUnbound;
    var t := Parse(text).value;
    TranscodedAlike(env, text, slices, inputType, body, decoded);
    var start := Initial(env, inputType, body, decoded);
    var after := Transcoded(env, t, Expand(slices, t.verb), inputType, body, decoded).value;
    AlikeChain(env, inputType, t, decoded, start, after);
  }

  lemma AlikeChain<V>(env: Env<V>, inputType: string, t: Template, m: Message<V>, start: Message<V>,
      after: Message<V>)
    requires AlikeUnbound(env, inputType, t, start, after)
    ensures AlikeUnbound(env, inputType, t, m, after) <==> AlikeUnbound(env, inputType, t, m, start)
    ensures AlikeUnbound(env, inputType, t, m, m)
  {
    hide Read, Unrelated, Vars;
    if AlikeUnbound(env, inputType, t, m, after) {
      forall q | UnrelatedToAll(Vars(t.segments), q) ensures SameAt(env, inputType, m, start, q) {
        assert SameAt(env, inputType, start, after, q) && SameAt(env, inputType, m, after, q);
      }
    }
    if AlikeUnbound(env, inputType, t, m, start) {
      forall q | UnrelatedToAll(Vars(t.segments), q) ensures SameAt(env, inputType, m, after, q) {
        assert SameAt(env, inputType, start, after, q) && SameAt(env, inputType, m, start, q);
      }
    }
  }

  /** A message type M with two string fields. */
  function ExampleEnv(): Env<string>
  {
    var text := FieldDocs(None, None, Some(9));
    Env(map[".M" := MessageDocs(map["id" := text, "data" := text])],
        f => "", (f, s) => s, s => s, (typeName, field) => false)
  }

  function ExampleBody(): Message<string>
  {
    Message(map["id" := Leaf(""), "data" := Leaf("x")])
  }

  /** With the selector "data", what the body said about that very field is lost. */
  lemma SelectorDropsBody()
    ensures Parse("/{id}") == Some(Template([Variable("id", [Wildcard])], None))
    ensures var t := Template([Variable("id", [Wildcard])], None);
            var after := Transcoded(ExampleEnv(), t, Expand([["7"]], None), ".M", "data", ExampleBody());
            && after.Some?
            && Read(ExampleEnv(), ".M", ExampleBody(), ["data"]) == Some(Leaf("x"))
            && Read(ExampleEnv(), ".M", after.value, ["data"]) == Some(Leaf(""))
  {
    var t, env, body := Template([Variable("id", [Wildcard])], None), ExampleEnv(), ExampleBody();
    ExampleParsed();
    ExampleBinds();
    ExampleBindable();
    ExampleReads();
    hide Parse, Binds, Conforms, Transcoded, Default, Read, Vars, ExampleEnv, ExampleBody, UnrelatedToAll, Expand;
    TranscodedAlike(env, "/{id}", [["7"]], ".M", "data", body);
    var after := Transcoded(env, t, Expand([["7"]], None), ".M", "data", body).value;
    assert SameAt(env, ".M", Default(env, ".M"), after, ["data"]);
  }

  lemma ExampleReads()
    ensures ".M" in ExampleEnv().types
    ensures Read(ExampleEnv(), ".M", ExampleBody(), ["data"]) == Some(Leaf("x"))
    ensures Read(ExampleEnv(), ".M", Default(ExampleEnv(), ".M"), ["data"]) == Some(Leaf(""))
  {
  }

  lemma ExampleParsed()
    ensures Parse("/{id}") == Some(Template([Variable("id", [Wildcard])], None))
  {
    var texts, segments := ["{id}"], [Variable("id", [Wildcard])];
    assert "{" + "id" + "}" == "{id}" && "/" + "{id}" + "" == "/{id}";
    assert SpellsAll(texts, segments);
    assert Join(texts, '/') == "{id}" && Render(texts, None) == "/{id}";
    ParseRender(texts, segments, None);
  }

  lemma ExampleBinds()
    ensures Binds(Template([Variable("id", [Wildcard])], None), [["7"]])
  {
    var segments, slices := [Variable("id", [Wildcard])], [["7"]];
    assert segments[1..] == [] && Pieces(segments) == [Wildcard];
    assert slices[1..] == [] && Flatten(slices) == ["7"];
  }

  lemma ExampleBindable()
    ensures Bindable(ExampleEnv(), ".M", Template([Variable("id", [Wildcard])], None))
    ensures Conforms(ExampleEnv(), ".M", ExampleBody())
    ensures UnrelatedToAll(Vars([Variable("id", [Wildcard])]), ["data"])
  {
    var segments := [Variable("id", [Wildcard])];
    assert segments[1..] == [] && Vars(segments) == ["id"];
    SplitFree("id", '.');
    assert ["id"][0] != ["data"][0];
  }

  /**
   * End to end through the router: among any registrations, a request expanded from the template of an unobstructed
   * route is answered with that route's service, and its setters deliver the binding's texts.
   */
  lemma {:induction false} TranscodeThroughRouter<V, S>(env: Env<V>, log: seq<Registration<S>>, texts: seq<string>,
      k: nat, slices: seq<seq<string>>, inputType: string, body: string, decoded: Message<V>)
    requires Unobstructed(log, texts, k) && Binds(Parse(texts[k]).value, slices)
    requires Bindable(env, inputType, Parse(texts[k]).value) && Conforms(env, inputType, decoded)
    ensures var t := Parse(texts[k]).value;
            var answer := FirstMatch(log, log[k].httpMethod, Expand(slices, t.verb));
            && answer.Some? && answer.value.service == log[k].entry.service
            && answer.value.metadata == log[k].entry.metadata
            && Delivered(env, t, slices, inputType, Initial(env, inputType, body, decoded), answer.value.captured)
  {
    hide Conforms, Delivered, Captures, FirstMatch, Expand;
    ExpandedPathReachesRoute(log, texts, k, slices);
    DefaultConforms(env, inputType);
    CapturesDeliver(env, Parse(texts[k]).value, slices, inputType, Initial(env, inputType, body, decoded));
  }
}
