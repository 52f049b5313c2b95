/** Compiled templates in the router: which route an expanded path reaches. */
module Dispatch {
  import opened Text
  import opened PathTemplate
  import opened PathCompiler
  import opened PatternMatcher
  import opened Bytecode
  import opened PathRoundTrip
  import opened RouteOverlap
  import opened Router

  /** A registration of the compiled form of a template text. */
  ghost predicate Compiled<S>(r: Registration<S>, text: string)
  {
    Parse(text).Some? && r.entry.pattern == Generate(Parse(text).value)
  }

  lemma ApartNeverBoth(text: string, text': string, path: string)
    requires Parse(text).Some? && Parse(text').Some? && !Competes(Parse(text).value, Parse(text').value)
    ensures !(Match(Generate(Parse(text).value), path).Some? && Match(Generate(Parse(text').value), path).Some?)
  {
    hide Match, Generate, Competes;
    OverlapExactly(text, text');
  }

  /** The k-th route is compiled from its text, and so are the earlier ones of its method, none of which competes. */
  ghost predicate Unobstructed<S>(log: seq<Registration<S>>, texts: seq<string>, k: nat)
  {
    && |texts| == |log| && k < |log|
    && Compiled(log[k], texts[k])
    && forall i :: 0 <= i < k && log[i].httpMethod == log[k].httpMethod ==>
         Compiled(log[i], texts[i]) && !Competes(Parse(texts[i]).value, Parse(texts[k]).value)
  }

  /**
   * Dispatch: in a router of compiled templates, a path expanded from the k-th one reaches the k-th service with
   * exactly the binding's captures, as long as no earlier route of that method competes with it.
   */
  lemma {:induction false} ExpandedPathReachesRoute<S>(log: seq<Registration<S>>, texts: seq<string>, k: nat,
      slices: seq<seq<string>>)
    requires Unobstructed(log, texts, k)
    requires Binds(Parse(texts[k]).value, slices)
    ensures var t := Parse(texts[k]).value;
            FirstMatch(log, log[k].httpMethod, Expand(slices, t.verb)) ==
            Some(Answer(log[k].entry.service, Captures(t.segments, Joined(slices), map[]), log[k].entry.metadata))
  {
    var t := Parse(texts[k]).value;
    var path, m := Expand(slices, t.verb), log[k].httpMethod;
    ExpandMatch(texts[k], slices);
    forall i | 0 <= i < k ensures !Serves(log[i], m, path) {
      if log[i].httpMethod == m {
        assert Compiled(log[i], texts[i]);
        ApartNeverBoth(texts[i], texts[k], path);
      }
    }
    assert IsFirst(log, m, path, k);
    FirstMatchAt(log, m, path);
  }
}
