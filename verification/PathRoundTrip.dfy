/** Between paths and components: normalisation, expansion of a template, and what captures remember. */
module PathRoundTrip {
  import opened Text
  import opened PathTemplate
  import opened PathCompiler
  import opened PatternMatcher
  import opened Bytecode
  import opened TemplateSemantics

  // ----- normalisation -----

  lemma ComponentsFree(path: string)
    ensures AllFree(Components(path), '/')
  {
    JoinOfSplit(StripSlash(path), '/');
    var parts := Split(StripSlash(path), '/');
    assert forall c <- Components(path) :: c in parts;
  }

  /** One more leading slash changes nothing exactly when there was none yet, or nothing but one. */
  lemma LeadingSlash(path: string)
    ensures Components("/" + path) == Components(path) <==> path == "" || path[0] != '/' || path == "/"
  {
    assert StripSlash("/" + path) == path;
    if path != "" && path[0] == '/' {
      var parts := Split(path[1..], '/');
      assert Split(path, '/') == [""] + parts;
      hide Split;
      OneMoreEmpty(parts);
      if path == "/" { SplitFree("", '/'); }
      if |parts| == 1 && parts[0] == "" { JoinOfSplit(path[1..], '/'); }
    }
  }

  /** An empty part in front stays, except in front of a single empty one. */
  lemma OneMoreEmpty(parts: seq<string>)
    requires |parts| >= 1
    ensures DropEmptyLast([""] + parts) == DropEmptyLast(parts) <==> parts == [""]
  {
  }

  lemma LeadingSlashMatch(p: Pattern, path: string)
    requires path == "" || path[0] != '/' || path == "/"
    ensures Match(p, "/" + path) == Match(p, path)
  {
    LeadingSlash(path);
  }

  /** One trailing slash changes nothing exactly when the stripped path is empty or does not end in one already. */
  lemma TrailingSlash(path: string)
    ensures var stripped := StripSlash(path);
            Components(path + "/") == Components(path) <==> stripped == "" || stripped[|stripped| - 1] != '/'
  {
    hide Split, DropEmptyLast;
    var stripped := StripSlash(path);
    if path == "" {
      assert StripSlash(path + "/") == stripped;
    } else {
      assert StripSlash(path + "/") == stripped + ['/'] + "";
      SplitConcat(stripped, '/', "");
      SplitFree("", '/');
      DropAppended(Split(stripped, '/'));
      LastPartEmpty(stripped);
    }
  }

  lemma DropAppended(parts: seq<string>)
    requires |parts| >= 1
    ensures DropEmptyLast(parts + [""]) == parts
    ensures DropEmptyLast(parts) == parts <==> |parts| == 1 || parts[|parts| - 1] != ""
  {
    assert (parts + [""])[..|parts|] == parts;
  }

  lemma TrailingSlashMatch(p: Pattern, path: string)
    requires StripSlash(path) == "" || StripSlash(path)[|StripSlash(path)| - 1] != '/'
    ensures Match(p, path + "/") == Match(p, path)
  {
    TrailingSlash(path);
  }

  /** The last part is empty when the text is empty or ends in the separator. */
  lemma {:induction false} LastPartEmpty(s: string)
    ensures var parts := Split(s, '/');
            && (parts[|parts| - 1] == "" <==> s == "" || s[|s| - 1] == '/')
            && (|parts| == 1 <==> '/' !in s)
    decreases |s|
  {
    if s != "" {
      var rest, parts := Split(s[1..], '/'), Split(s, '/');
      LastPartEmpty(s[1..]);
      assert parts == if s[0] == '/' then [""] + rest else [[s[0]] + rest[0]] + rest[1..];
      hide Split;
      assert s == [s[0]] + s[1..];
      assert s[1..] != "" ==> s[1..][|s| - 2] == s[|s| - 1];
      assert s[0] == '/' || |rest| > 1 ==> parts[|parts| - 1] == rest[|rest| - 1];
    }
  }

  /** A component list comes back from its path exactly when no trailing empty component gets lost. */
  lemma {:induction false} ComponentsOfPath(components: seq<string>)
    ensures Components("/" + Join(components, '/')) == components <==>
            && components != [] && AllFree(components, '/')
            && (|components| == 1 || components[|components| - 1] != "")
  {
    var path := "/" + Join(components, '/');
    assert StripSlash(path) == Join(components, '/');
    ComponentsFree(path);
    if components != [] && AllFree(components, '/') {
      SplitOfJoin(components, '/');
    }
  }

  // ----- expanding a template -----

  function PathOf(components: seq<string>, verb: string): string
  {
    "/" + Join(components, '/') + (if verb == "" then "" else ":" + verb)
  }

  /** The path of a template whose pieces are replaced by slices. */
  function Expand(slices: seq<seq<string>>, verb: Option<string>): string
  {
    PathOf(Flatten(slices), VerbText(verb))
  }

  lemma VerbComponents(components: seq<string>, verb: string)
    requires components != [] && AllFree(components, '/') && '/' !in verb && verb != ""
    ensures var n := |components| - 1;
            Components(PathOf(components, verb)) == components[..n] + [components[n] + (":" + verb)]
  {
    var n := |components| - 1;
    var all := components[..n] + [components[n] + (":" + verb)];
    JoinExtendLast(components, ":" + verb, '/');
    assert PathOf(components, verb) == "/" + Join(all, '/');
    assert components[n] in components;
    forall c | c in all ensures '/' !in c {
      if c != all[n] { assert c in components; }
    }
    ComponentsOfPath(all);
  }

  lemma StripVerbAt(init: seq<string>, last: string, verb: string)
    requires verb != "" && ':' !in verb
    ensures StripVerb(init + [last + (":" + verb)], verb) == Some(init + [last])
  {
    var marked := last + (":" + verb);
    assert marked == last + [':'] + verb;
    LastIndexAt(last, ':', verb);
    assert marked[|last| + 1..] == verb && marked[..|last|] == last;
    var all := init + [marked];
    assert all[|all| - 1] == marked && all[..|all| - 1] == init;
  }

  /** The components are those of head with a colon and the verb behind the last one. */
  predicate EndsInVerb(components: seq<string>, head: seq<string>, verb: string)
  {
    head != [] && components == head[..|head| - 1] + [head[|head| - 1] + (":" + verb)]
  }

  /** A verb is found exactly when the last component ends in a colon and the verb, and then just that is taken off. */
  lemma StripVerbExactly(components: seq<string>, verb: string, head: seq<string>)
    requires components != [] && verb != "" && ':' !in verb
    ensures StripVerb(components, verb) == Some(head) <==> EndsInVerb(components, head, verb)
  {
    var n := |components| - 1;
    var last := components[n];
    if StripVerb(components, verb) == Some(head) {
      var i := LastIndex(last, ':').value;
      assert head == components[..n] + [last[..i]];
      assert last == last[..i] + (":" + last[i + 1..]);
      assert components == components[..n] + [last];
      assert head[..|head| - 1] == components[..n];
    }
    if EndsInVerb(components, head, verb) {
      StripVerbAt(head[..|head| - 1], head[|head| - 1], verb);
      assert head[..|head| - 1] + [head[|head| - 1]] == head;
    }
  }

  /** A verb with a colon in it is never found. */
  lemma ColonVerbNeverFound(components: seq<string>, verb: string)
    requires components != [] && ':' in verb
    ensures StripVerb(components, verb).None?
  {
    var last := components[|components| - 1];
    var i := LastIndex(last, ':');
    if i.Some? { assert ':' !in last[i.value + 1..]; }
  }

  /** A template with a verb answers what its verb-free form answers on the components in front of the verb. */
  lemma VerbMatch(segments: seq<Segment>, verb: string, path: string)
    requires VariablesNonEmpty(segments) && verb != "" && ':' !in verb
    ensures var p, plain := Generate(Template(segments, Some(verb))), Generate(Template(segments, None));
            && (forall head :: EndsInVerb(Components(path), head, verb) ==> Match(p, path) == Captured(plain, head))
            && ((forall head :: !EndsInVerb(Components(path), head, verb)) ==> Match(p, path).None?)
  {
    hide Components, StripVerb, EndsInVerb, Execute, SegmentsOps, Captures, Consume;
    var stripped := StripVerb(Components(path), verb);
    var p, plain := Generate(Template(segments, Some(verb))), Generate(Template(segments, None));
    forall head ensures stripped == Some(head) <==> EndsInVerb(Components(path), head, verb) {
      StripVerbExactly(Components(path), verb, head);
    }
    if stripped.Some? {
      ExecuteGenerated(Template(segments, Some(verb)), stripped.value);
      ExecuteGenerated(Template(segments, None), stripped.value);
    }
  }

  /** A component list comes back from its expanded path exactly under these conditions. */
  ghost predicate Expandable(components: seq<string>, verb: string)
  {
    && components != [] && AllFree(components, '/') && '/' !in verb
    && (verb == "" ==> |components| == 1 || components[|components| - 1] != "")
  }

  /** Exactly the expandable components come back from the path they are put into, verb taken off again. */
  lemma ExpandedComponents(components: seq<string>, verb: string)
    requires ':' !in verb
    ensures StripVerb(Components(PathOf(components, verb)), verb) == Some(components) <==>
            Expandable(components, verb)
  {
    hide Components, StripVerb;
    if verb == "" {
      ComponentsOfPath(components);
      assert PathOf(components, verb) == "/" + Join(components, '/');
      StripNoVerb(Components(PathOf(components, verb)));
    } else if Expandable(components, verb) {
      var n := |components| - 1;
      VerbComponents(components, verb);
      StripVerbAt(components[..n], components[n], verb);
      assert components[..n] + [components[n]] == components;
    } else if StripVerb(Components(PathOf(components, verb)), verb) == Some(components) {
      var path := PathOf(components, verb);
      HeadFree(path, verb);
      StripVerbExactly(Components(path), verb, components);
      VerbFree(path, components, verb);
    }
  }

  lemma StripNoVerb(components: seq<string>)
    requires components != []
    ensures StripVerb(components, "") == Some(components)
  {
  }

  lemma VerbFree(path: string, head: seq<string>, verb: string)
    requires EndsInVerb(Components(path), head, verb)
    ensures '/' !in verb
  {
    ComponentsFree(path);
    var n := |head| - 1;
    assert Components(path)[n] == head[n] + (":" + verb);
    assert Components(path)[n] in Components(path);
  }

  /** Every slash-free list of components is what some path leaves in front of a verb, or has without one. */
  lemma PathFor(components: seq<string>, verb: string) returns (path: string)
    requires components != [] && AllFree(components, '/') && ':' !in verb && '/' !in verb
    ensures StripVerb(Components(path), verb) == Some(components)
    ensures verb == "" ==> Components(path) == components
    ensures verb != "" ==> EndsInVerb(Components(path), components, verb)
  {
    if verb == "" {
      hide Split, DropEmptyLast, Join;
      var joined := Join(components, '/');
      path := "/" + (joined + ['/'] + "");
      assert StripSlash(path) == joined + ['/'] + "";
      SplitConcat(joined, '/', "");
      SplitOfJoin(components, '/');
      SplitFree("", '/');
      DropAppended(components);
      StripNoVerb(components);
    } else {
      hide Components, StripVerb;
      path := PathOf(components, verb);
      ExpandedComponents(components, verb);
      StripVerbExactly(Components(path), verb, components);
    }
  }

  /** A binding: slices that fit a grammatical template and can be put into a path. */
  ghost predicate Binds(t: Template, slices: seq<seq<string>>)
  {
    && DeepOnlyLast(Pieces(t.segments)) && IsCut(Pieces(t.segments), Flatten(slices), slices)
    && Expandable(Flatten(slices), VerbText(t.verb))
  }

  /**
   * Expand, then match: fitting slash-free slices, put into the template and matched against its compiled form,
   * give back exactly their captures.
   */
  lemma {:induction false} ExpandMatch(text: string, slices: seq<seq<string>>)
    requires Parse(text).Some? && Binds(Parse(text).value, slices)
    ensures var t := Parse(text).value;
            Match(Generate(t), Expand(slices, t.verb)) == Some(Captures(t.segments, Joined(slices), map[]))
  {
    hide Flatten, Captures, Joined, Components, Generate, Pieces, PathOf, IsCut, Match, StripVerb, Expandable;
    var t := Parse(text).value;
    ParsedVerb(text);
    ExpandedComponents(Flatten(slices), VerbText(t.verb));
    CompiledMeaning(text, Expand(slices, t.verb));
  }

  /** The verb follows the last colon, so it has none. */
  lemma ParsedVerb(text: string)
    requires Parse(text).Some?
    ensures ':' !in VerbText(Parse(text).value.verb)
  {
  }

  // ----- what a capture remembers -----

  /** Joining joined slices: one join of all components, plus a slash for a last `**` that matched nothing. */
  lemma {:induction false} NestedJoin(slices: seq<seq<string>>)
    requires forall i :: 0 <= i < |slices| - 1 ==> slices[i] != []
    ensures Join(Joined(slices), '/') ==
            Join(Flatten(slices), '/') + if |slices| > 1 && slices[|slices| - 1] == [] then "/" else ""
    decreases |slices|
  {
    if |slices| == 1 {
      assert Joined(slices) == [Join(slices[0], '/')];
      assert Flatten(slices) == slices[0];
    } else if |slices| > 1 {
      var rest := slices[1..];
      NestedJoin(rest);
      assert Joined(slices)[1..] == Joined(rest);
      assert Join(Joined(slices), '/') == Join(slices[0], '/') + ['/'] + Join(Joined(rest), '/');
      if |rest| > 1 {
        assert rest[0] == slices[1];
        assert Flatten(rest) != [];
      }
      if Flatten(rest) == [] {
        assert rest == [[]];
        assert Flatten(slices) == slices[0];
      } else {
        JoinConcat(slices[0], Flatten(rest), '/');
        if |rest| == 1 { assert Flatten(rest) == rest[0]; }
      }
    }
  }

  /** A captured value still determines the components it was made of, as long as none was empty. */
  lemma {:induction false} CaptureDetermines(slices: seq<seq<string>>)
    requires AllFree(Flatten(slices), '/') && "" !in Flatten(slices)
    ensures NonEmpty(Split(Join(Joined(slices), '/'), '/')) == Flatten(slices)
    decreases |slices|
  {
    if slices == [] {
      assert Split("", '/') == [""];
      assert NonEmpty([""]) == NonEmpty([]);
    } else {
      var first, rest := slices[0], slices[1..];
      assert forall c <- first :: c in Flatten(slices);
      assert forall c <- Flatten(rest) :: c in Flatten(slices);
      assert Joined(slices)[0] == Join(first, '/') && Joined(slices)[1..] == Joined(rest);
      assert NonEmpty(Split(Join(first, '/'), '/')) == first by {
        if first == [] {
          assert NonEmpty([""]) == NonEmpty([]);
        } else {
          SplitOfJoin(first, '/');
          NonEmptySame(first);
        }
      }
      if rest == [] {
        assert Flatten(slices) == first;
      } else {
        CaptureDetermines(rest);
        SplitConcat(Join(first, '/'), '/', Join(Joined(rest), '/'));
        NonEmptyConcat(Split(Join(first, '/'), '/'), Split(Join(Joined(rest), '/'), '/'));
      }
    }
  }

  // ----- captures by name -----

  predicate Distinct(names: seq<string>)
  {
    forall i, j :: 0 <= i < j < |names| ==> names[i] != names[j]
  }

  /** A name that no segment binds keeps its entry. */
  lemma {:induction false} CapturesOther(segments: seq<Segment>, values: seq<string>, captured: map<string, string>,
      name: string)
    requires |values| == |Pieces(segments)| && name !in Vars(segments)
    ensures var after := Captures(segments, values, captured);
            (name in after <==> name in captured) && (name in captured ==> after[name] == captured[name])
    decreases |segments|
  {
    if segments != [] {
      var first, n := segments[0], |SegmentPieces(segments[0])|;
      var next := if first.Variable? then captured[first.fieldPath := Join(values[..n], '/')] else captured;
      if first.Variable? { assert first.fieldPath in Vars(segments); }
      CapturesOther(segments[1..], values[n..], next, name);
    }
  }

  lemma {:induction false} CapturesAppend(a: seq<Segment>, b: seq<Segment>, u: seq<string>, v: seq<string>,
      captured: map<string, string>)
    requires |u| == |Pieces(a)| && |v| == |Pieces(b)|
    ensures |u + v| == |Pieces(a + b)|
    ensures Captures(a + b, u + v, captured) == Captures(b, v, Captures(a, u, captured))
    decreases |a|
  {
    if a == [] {
      assert a + b == b && u + v == v;
    } else {
      var n := |SegmentPieces(a[0])|;
      assert (a + b)[0] == a[0] && (a + b)[1..] == a[1..] + b;
      assert (u + v)[..n] == u[..n] && (u + v)[n..] == u[n..] + v;
      CapturesAppend(a[1..], b, u[n..], v,
                     if a[0].Variable? then captured[a[0].fieldPath := Join(u[..n], '/')] else captured);
    }
  }

  /** Each variable holds the join of its own values unless a later one has its name. */
  lemma {:induction false} CapturesAt(before: seq<Segment>, variable: Segment, later: seq<Segment>, u: seq<string>,
      v: seq<string>, w: seq<string>, captured: map<string, string>)
    requires variable.Variable? && variable.fieldPath !in Vars(later)
    requires |u| == |Pieces(before)| && |v| == |variable.pieces| && |w| == |Pieces(later)|
    ensures |u + (v + w)| == |Pieces(before + ([variable] + later))|
    ensures var after := Captures(before + ([variable] + later), u + (v + w), captured);
            variable.fieldPath in after && after[variable.fieldPath] == Join(v, '/')
  {
    var rest := [variable] + later;
    assert rest[1..] == later && Pieces(rest) == variable.pieces + Pieces(later);
    CapturesAppend(before, rest, u, v + w, captured);
    var next := Captures(before, u, captured)[variable.fieldPath := Join(v, '/')];
    assert (v + w)[..|v|] == v && (v + w)[|v|..] == w;
    CapturesOther(later, w, next, variable.fieldPath);
  }

  lemma {:induction false} JoinedSplit(slices: seq<seq<string>>, n: nat)
    requires n <= |slices|
    ensures Joined(slices)[..n] == Joined(slices[..n]) && Joined(slices)[n..] == Joined(slices[n..])
    ensures Joined(slices) == Joined(slices[..n]) + Joined(slices[n..])
  {
    if n > 0 {
      JoinedSplit(slices[1..], n - 1);
      assert slices[..n][1..] == slices[1..][..n - 1];
      assert slices[n..] == slices[1..][n - 1..];
      assert Joined(slices)[n..] == Joined(slices[1..])[n - 1..];
    } else {
      assert slices[..0] == [] && slices[0..] == slices;
    }
  }

  /** The slices of the first segment cover a prefix of the components, those of the rest what remains. */
  lemma CutSplit(a: seq<Piece>, b: seq<Piece>, components: seq<string>, slices: seq<seq<string>>)
    requires IsCut(a + b, components, slices)
    ensures |slices| == |a| + |b|
    ensures var n := |a|;
            && IsCut(a, Flatten(slices[..n]), slices[..n])
            && IsCut(b, Flatten(slices[n..]), slices[n..])
            && components == Flatten(slices[..n]) + Flatten(slices[n..])
  {
    hide Flatten, Fits;
    var n := |a|;
    FlattenConcat(slices[..n], slices[n..]);
    assert slices[..n] + slices[n..] == slices;
    assert forall i :: 0 <= i < n ==> a[i] == (a + b)[i];
    assert forall i :: 0 <= i < |b| ==> b[i] == (a + b)[n + i];
  }

  /** Every wildcard sits in a variable. */
  predicate WildcardsBound(segments: seq<Segment>)
  {
    forall s <- segments :: s.Single? ==> s.piece.Literal?
  }

  /** The components a segment matched, read back from the template and its captures. */
  function Recover(segment: Segment, captured: map<string, string>): seq<string>
    requires segment.Variable? ==> segment.fieldPath in captured
  {
    match segment
    case Single(piece) => if piece.Literal? then [piece.text] else []
    case Variable(f, _) => NonEmpty(Split(captured[f], '/'))
  }

  function RecoverAll(segments: seq<Segment>, captured: map<string, string>): seq<string>
    requires forall f <- Vars(segments) :: f in captured
  {
    if segments == [] then []
    else
      assert forall f <- Vars(segments[1..]) :: f in Vars(segments);
      assert segments[0].Variable? ==> segments[0].fieldPath in Vars(segments);
      Recover(segments[0], captured) + RecoverAll(segments[1..], captured)
  }

  lemma {:induction false} RecoverOne(segment: Segment, components: seq<string>, slices: seq<seq<string>>,
      captured: map<string, string>)
    requires IsCut(SegmentPieces(segment), components, slices)
    requires segment.Single? ==> segment.piece.Literal?
    requires segment.Variable? ==>
               segment.fieldPath in captured && captured[segment.fieldPath] == Join(Joined(slices), '/')
    requires AllFree(components, '/') && "" !in components
    ensures Recover(segment, captured) == components
  {
    if segment.Variable? {
      CaptureDetermines(slices);
    } else {
      assert slices == [[segment.piece.text]];
      assert Flatten(slices) == slices[0];
    }
  }

  lemma {:induction false} CapturesRecover(segments: seq<Segment>, components: seq<string>, slices: seq<seq<string>>,
      captured: map<string, string>)
    requires IsCut(Pieces(segments), components, slices)
    requires WildcardsBound(segments) && Distinct(Vars(segments))
    requires AllFree(components, '/') && "" !in components
    ensures var after := Captures(segments, Joined(slices), captured);
            (forall f <- Vars(segments) :: f in after) && RecoverAll(segments, after) == components
    decreases |segments|
  {
    hide IsCut, Flatten, Join, Recover, Split;
    if segments == [] {
      CutNothing(components, slices);
    } else {
      var first, rest, n := segments[0], segments[1..], |SegmentPieces(segments[0])|;
      CutSplit(SegmentPieces(first), Pieces(rest), components, slices);
      var now, later := Flatten(slices[..n]), Flatten(slices[n..]);
      assert forall c <- now :: c in components;
      assert forall c <- later :: c in components;
      JoinedSplit(slices, n);
      var next := if first.Variable? then captured[first.fieldPath := Join(Joined(slices[..n]), '/')] else captured;
      assert forall i :: 0 <= i < |Vars(rest)| ==> Vars(rest)[i] == Vars(segments)[i + |SegmentVars(first)|];
      CapturesRecover(rest, later, slices[n..], next);
      var after := Captures(segments, Joined(slices), captured);
      assert after == Captures(rest, Joined(slices[n..]), next);
      assert first in segments;
      if first.Variable? {
        assert Vars(segments)[0] == first.fieldPath;
        CapturesOther(rest, Joined(slices[n..]), next, first.fieldPath);
      }
      RecoverOne(first, now, slices[..n], after);
      forall f | f in Vars(segments) ensures f in after {
        if !(first.Variable? && f == first.fieldPath) { assert f in Vars(rest); }
      }
    }
  }

  /** Every wildcard sits in a variable of its own name. */
  predicate WildcardsNamed(t: Template)
  {
    WildcardsBound(t.segments) && Distinct(Vars(t.segments))
  }

  /** The template matches the path, and none of the matched components is empty. */
  predicate MatchesFully(t: Template, path: string)
  {
    Match(Generate(t), path).Some? && "" !in StripVerb(Components(path), VerbText(t.verb)).value
  }

  /**
   * Captures lose nothing: when every wildcard sits in a variable of its own name, the components of a matched
   * path without empty components can be read back from the captures, so equal captures mean equal components.
   */
  lemma CapturesInjective(text: string, path: string, path': string)
    requires Parse(text).Some? && WildcardsNamed(Parse(text).value)
    requires MatchesFully(Parse(text).value, path) && MatchesFully(Parse(text).value, path')
    requires var p := Generate(Parse(text).value); Match(p, path) == Match(p, path')
    ensures var t := Parse(text).value;
            var captured, verb := Match(Generate(t), path).value, VerbText(t.verb);
            && (forall f <- Vars(t.segments) :: f in captured)
            && StripVerb(Components(path), verb) == Some(RecoverAll(t.segments, captured))
            && StripVerb(Components(path), verb) == StripVerb(Components(path'), verb)
  {
    RecoverMatched(text, path);
    RecoverMatched(text, path');
  }

  lemma RecoverMatched(text: string, path: string)
    requires Parse(text).Some? && WildcardsNamed(Parse(text).value)
    requires MatchesFully(Parse(text).value, path)
    ensures var t := Parse(text).value;
            var captured := Match(Generate(t), path).value;
            && (forall f <- Vars(t.segments) :: f in captured)
            && StripVerb(Components(path), VerbText(t.verb)) == Some(RecoverAll(t.segments, captured))
  {
    var t := Parse(text).value;
    CompiledMeaning(text, path);
    var head := StripVerb(Components(path), VerbText(t.verb)).value;
    var slices :| IsCut(Pieces(t.segments), head, slices)
                  && Match(Generate(t), path).value == Captures(t.segments, Joined(slices), map[]);
    HeadFree(path, VerbText(t.verb));
    CapturesRecover(t.segments, head, slices, map[]);
  }

  lemma HeadFree(path: string, verb: string)
    requires StripVerb(Components(path), verb).Some?
    ensures AllFree(StripVerb(Components(path), verb).value, '/')
  {
    ComponentsFree(path);
    var components := Components(path);
    var head := StripVerb(components, verb).value;
    var n := |components| - 1;
    assert components[n] in components;
    assert head[..n] == components[..n] && head[n] <= components[n];
    forall c | c in head ensures '/' !in c {
      if c != head[n] { assert c in components; }
    }
  }

  // ----- where a capture comes from -----

  lemma {:induction false} PiecesConcat(a: seq<Segment>, b: seq<Segment>)
    ensures Pieces(a + b) == Pieces(a) + Pieces(b)
  {
    if a == [] {
      assert a + b == b;
    } else {
      assert (a + b)[0] == a[0] && (a + b)[1..] == a[1..] + b;
      PiecesConcat(a[1..], b);
    }
  }

  /** Slices for pieces without `**` hold one component each. */
  lemma {:induction false} PlainSlices(pieces: seq<Piece>, slices: seq<seq<string>>)
    requires IsCut(pieces, Flatten(slices), slices) && NoDeep(pieces)
    ensures |Flatten(slices)| == |pieces|
  {
    CutLength(pieces, Flatten(slices), slices);
  }

  /** All slices but the last hold one component each. */
  lemma LastSliceLength(pieces: seq<Piece>, components: seq<string>, slices: seq<seq<string>>)
    requires pieces != [] && DeepOnlyLast(pieces) && IsCut(pieces, components, slices)
    ensures |components| == |pieces| - 1 + |slices[|pieces| - 1]|
  {
    var n := |pieces| - 1;
    assert pieces[..n] + [pieces[n]] == pieces;
    CutSplit(pieces[..n], [pieces[n]], components, slices);
    PlainSlices(pieces[..n], slices[..n]);
    assert slices[n..] == [slices[n]] && Flatten([slices[n]]) == slices[n] + Flatten([]);
  }

  /** The value of a variable whose pieces are cut over some components, `**` standing last if at all. */
  lemma {:induction false} VariableValue(pieces: seq<Piece>, components: seq<string>, slices: seq<seq<string>>)
    requires pieces != [] && DeepOnlyLast(pieces) && IsCut(pieces, components, slices)
    ensures Join(Joined(slices), '/') ==
            Join(components, '/') + if |pieces| > 1 && |components| == |pieces| - 1 then "/" else ""
    ensures NoDeep(pieces) ==> |components| == |pieces|
  {
    var n := |pieces| - 1;
    forall i | 0 <= i < n ensures slices[i] != [] { assert Fits(pieces[i], slices[i]); }
    LastSliceLength(pieces, components, slices);
    if NoDeep(pieces) { CutLength(pieces, components, slices); }
    hide Join, Joined, Flatten, Fits;
    NestedJoin(slices);
  }

  function RunEnd(lo: nat, n: nat, later: seq<Piece>, total: nat): nat
  {
    if later == [] then total else lo + n
  }

  /** The run of components that the middle pieces of a cut cover, and the value joined from it. */
  lemma MiddleValue(a: seq<Piece>, own: seq<Piece>, c: seq<Piece>, head: seq<string>,
      slices: seq<seq<string>>)
    requires own != [] && DeepOnlyLast(a + (own + c)) && IsCut(a + (own + c), head, slices)
    ensures var lo, n := |a|, |own|;
            var hi := RunEnd(lo, n, c, |head|);
            && lo <= hi <= |head|
            && Join(Joined(slices[lo..][..n]), '/') ==
               Join(head[lo..hi], '/') + if n > 1 && hi - lo == n - 1 then "/" else ""
  {
    hide Flatten, Join, Joined, Fits, IsCut;
    var lo, n, pieces := |a|, |own|, a + (own + c);
    assert forall i :: 0 <= i < lo ==> a[i] == pieces[i];
    assert forall i :: 0 <= i < n ==> own[i] == pieces[lo + i];
    CutSplit(a, own + c, head, slices);
    PlainSlices(a, slices[..lo]);
    var slices' := slices[lo..];
    CutSplit(own, c, Flatten(slices'), slices');
    var mine := Flatten(slices'[..n]);
    VariableValue(own, mine, slices'[..n]);
    assert head[lo..] == Flatten(slices');
    if c == [] {
      assert slices'[..n] == slices';
      assert head[lo..|head|] == mine;
    } else {
      assert NoDeep(own);
      assert head[lo..lo + n] == mine;
    }
  }

  lemma NonEmptyAt(before: seq<Segment>, variable: Segment, later: seq<Segment>)
    requires VariablesNonEmpty(before + ([variable] + later))
    ensures SegmentPieces(variable) != []
  {
    assert (before + ([variable] + later))[|before|] == variable;
  }

  /** The value of a variable in terms of the slices of its own pieces. */
  lemma {:induction false} CapturedSlices(before: seq<Segment>, variable: Segment, later: seq<Segment>,
      slices: seq<seq<string>>)
    requires variable.Variable? && variable.fieldPath !in Vars(later)
    requires |slices| == |Pieces(before + ([variable] + later))|
    ensures var lo, n := |Pieces(before)|, |variable.pieces|;
            var captured := Captures(before + ([variable] + later), Joined(slices), map[]);
            && lo + n <= |slices|
            && variable.fieldPath in captured
            && captured[variable.fieldPath] == Join(Joined(slices[lo..][..n]), '/')
    ensures Pieces(before + ([variable] + later)) == Pieces(before) + (variable.pieces + Pieces(later))
  {
    var rest := [variable] + later;
    PiecesConcat(before, rest);
    assert rest[1..] == later && Pieces(rest) == variable.pieces + Pieces(later);
    var lo, n := |Pieces(before)|, |variable.pieces|;
    JoinedSplit(slices, lo);
    JoinedSplit(slices[lo..], n);
    var u, v, w := Joined(slices[..lo]), Joined(slices[lo..][..n]), Joined(slices[lo..][n..]);
    assert u + (v + w) == Joined(slices);
    CapturesAt(before, variable, later, u, v, w, map[]);
  }

  /**
   * Capture faithfulness: in a grammatical template a variable holds the join of a contiguous run of the path's
   * components, starting after one component per earlier piece and ending after one per piece of its own, or at
   * the path's end. One slash is added when several pieces matched one component less, a `**` having matched none.
   */
  lemma {:induction false} CaptureFaithful(text: string, path: string, before: seq<Segment>, variable: Segment,
      later: seq<Segment>)
    requires Parse(text).Some? && Parse(text).value.segments == before + ([variable] + later)
    requires variable.Variable? && variable.fieldPath !in Vars(later)
    requires var t := Parse(text).value; DeepOnlyLast(Pieces(t.segments)) && Match(Generate(t), path).Some?
    ensures var t := Parse(text).value;
            var head := StripVerb(Components(path), VerbText(t.verb)).value;
            var lo, n := |Pieces(before)|, |variable.pieces|;
            var hi := RunEnd(lo, n, Pieces(later), |head|);
            var captured := Match(Generate(t), path).value;
            && lo <= hi <= |head|
            && variable.fieldPath in captured
            && captured[variable.fieldPath] == Join(head[lo..hi], '/') + if n > 1 && hi - lo == n - 1 then "/" else ""
  {
    var t := Parse(text).value;
    var head := StripVerb(Components(path), VerbText(t.verb)).value;
    ParsedNonEmpty(text);
    CompiledMeaning(text, path);
    var slices :| IsCut(Pieces(t.segments), head, slices)
                  && Match(Generate(t), path).value == Captures(t.segments, Joined(slices), map[]);
    CapturedSlices(before, variable, later, slices);
    NonEmptyAt(before, variable, later);
    var pieces := Pieces(before) + (variable.pieces + Pieces(later));
    assert Pieces(t.segments) == pieces;
    assert IsCut(pieces, head, slices) && DeepOnlyLast(pieces);
    MiddleValue(Pieces(before), variable.pieces, Pieces(later), head, slices);
  }
}
