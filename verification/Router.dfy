/** The router: per-method lists of patterns, first match wins. */
module Router {
  import opened Text
  import opened PathTemplate
  import opened PatternMatcher

  datatype AuthLocation = Header | Query | Cookie

  datatype AuthConfig = AuthConfig(scheme: string, location: AuthLocation, name: string)

  datatype RouteMetadata = RouteMetadata(authRequired: Option<AuthConfig>)

  datatype RouteEntry<S> = RouteEntry(pattern: Pattern, service: S, metadata: RouteMetadata)

  datatype Answer<S> = Answer(service: S, captured: map<string, string>, metadata: RouteMetadata)

  /** One call of `route_with_metadata`. */
  datatype Registration<S> = Registration(httpMethod: string, entry: RouteEntry<S>)

  predicate Serves<S>(r: Registration<S>, httpMethod: string, path: string)
  {
    r.httpMethod == httpMethod && Match(r.entry.pattern, path).Some?
  }

  function Reply<S>(entry: RouteEntry<S>, path: string): Answer<S>
    requires Match(entry.pattern, path).Some?
  {
    Answer(entry.service, Match(entry.pattern, path).value, entry.metadata)
  }

  /** The reference: the first registration that serves the request, whatever came in between. */
  function FirstMatch<S>(log: seq<Registration<S>>, httpMethod: string, path: string): Option<Answer<S>>
  {
    if log == [] then None
    else if Serves(log[0], httpMethod, path) then Some(Reply(log[0].entry, path))
    else FirstMatch(log[1..], httpMethod, path)
  }

  /** The registrations of one HTTP method, in order. */
  function ForMethod<S>(log: seq<Registration<S>>, httpMethod: string): seq<RouteEntry<S>>
  {
    if log == [] then []
    else (if log[0].httpMethod == httpMethod then [log[0].entry] else []) + ForMethod(log[1..], httpMethod)
  }

  lemma {:induction false} ForMethodAppend<S>(log: seq<Registration<S>>, r: Registration<S>, httpMethod: string)
    ensures ForMethod(log + [r], httpMethod) ==
            ForMethod(log, httpMethod) + if r.httpMethod == httpMethod then [r.entry] else []
  {
    if log == [] {
      assert [r][1..] == [] && log + [r] == [r];
      assert ForMethod([r], httpMethod) ==
             (if r.httpMethod == httpMethod then [r.entry] else []) + ForMethod([r][1..], httpMethod);
    } else {
      var all, first := log + [r], if log[0].httpMethod == httpMethod then [log[0].entry] else [];
      assert all[0] == log[0] && all[1..] == log[1..] + [r];
      ForMethodAppend(log[1..], r, httpMethod);
      assert ForMethod(all, httpMethod) == first + ForMethod(all[1..], httpMethod);
      assert ForMethod(log, httpMethod) == first + ForMethod(log[1..], httpMethod);
    }
  }

  // ----- where the first match is -----

  predicate IsFirst<S>(log: seq<Registration<S>>, httpMethod: string, path: string, k: nat)
  {
    k < |log| && Serves(log[k], httpMethod, path) && forall i :: 0 <= i < k ==> !Serves(log[i], httpMethod, path)
  }

  lemma {:induction false} FirstMatchAt<S>(log: seq<Registration<S>>, httpMethod: string, path: string)
    ensures FirstMatch(log, httpMethod, path).None? <==>
            forall i :: 0 <= i < |log| ==> !Serves(log[i], httpMethod, path)
    ensures FirstMatch(log, httpMethod, path).Some? ==> exists k: nat :: IsFirst(log, httpMethod, path, k)
    ensures forall k: nat ::
              IsFirst(log, httpMethod, path, k) ==>
                FirstMatch(log, httpMethod, path) == Some(Reply(log[k].entry, path))
  {
    if log != [] {
      var rest := log[1..];
      FirstMatchAt(rest, httpMethod, path);
      if Serves(log[0], httpMethod, path) {
        assert IsFirst(log, httpMethod, path, 0);
      } else {
        forall i | 0 <= i < |log|
          ensures Serves(log[i], httpMethod, path) ==> i > 0 && Serves(rest[i - 1], httpMethod, path) {}
        if k: nat :| IsFirst(rest, httpMethod, path, k) {
          forall i | 0 <= i < k + 1 ensures !Serves(log[i], httpMethod, path) {
            if i > 0 { assert log[i] == rest[i - 1]; }
          }
          assert IsFirst(log, httpMethod, path, k + 1);
        }
        forall k: nat | IsFirst(log, httpMethod, path, k)
          ensures FirstMatch(log, httpMethod, path) == Some(Reply(log[k].entry, path))
        {
          forall i | 0 <= i < k - 1 ensures !Serves(rest[i], httpMethod, path) { assert rest[i] == log[i + 1]; }
          assert IsFirst(rest, httpMethod, path, k - 1);
        }
      }
    }
  }

  /** A new registration never changes an answered request; it answers an unanswered one iff its own pattern matches. */
  lemma {:induction false} RegisterOne<S>(log: seq<Registration<S>>, r: Registration<S>, httpMethod: string,
      path: string)
    ensures var before := FirstMatch(log, httpMethod, path);
            FirstMatch(log + [r], httpMethod, path) ==
            if before.Some? then before
            else if Serves(r, httpMethod, path) then Some(Reply(r.entry, path)) else None
  {
    if log == [] {
      assert log + [r] == [r];
    } else {
      assert (log + [r])[1..] == log[1..] + [r];
      RegisterOne(log[1..], r, httpMethod, path);
    }
  }

  // ----- order of registration -----

  /** Some request is served by both. */
  ghost predicate Conflict<S>(a: Registration<S>, b: Registration<S>)
  {
    exists path :: Serves(a, b.httpMethod, path) && Serves(b, b.httpMethod, path)
  }

  lemma BothServed<S>(a: Registration<S>, b: Registration<S>, httpMethod: string, path: string)
    requires Serves(a, httpMethod, path) && Serves(b, httpMethod, path)
    ensures Conflict(a, b)
  {
    assert Serves(a, b.httpMethod, path);
  }

  ghost predicate Inverse(perm: seq<nat>, inverse: seq<nat>)
  {
    && |perm| == |inverse|
    && (forall i :: 0 <= i < |perm| ==> perm[i] < |perm| && inverse[perm[i]] == i)
    && (forall i :: 0 <= i < |perm| ==> inverse[i] < |perm| && perm[inverse[i]] == i)
  }

  /** log' lists the registrations of log in another order. */
  ghost predicate Reordered<S>(log: seq<Registration<S>>, log': seq<Registration<S>>, perm: seq<nat>, inverse: seq<nat>)
  {
    && |log| == |log'| == |perm|
    && Inverse(perm, inverse)
    && forall i :: 0 <= i < |log'| ==> log'[i] == log[perm[i]]
  }

  lemma ReorderedAt<S>(log: seq<Registration<S>>, log': seq<Registration<S>>, perm: seq<nat>,
      inverse: seq<nat>, i: nat)
    requires Reordered(log, log', perm, inverse) && i < |log|
    ensures |log'| == |log| == |perm| == |inverse|
    ensures perm[i] < |log| && log'[i] == log[perm[i]]
    ensures inverse[i] < |log'| && perm[inverse[i]] == i && log'[inverse[i]] == log[i]
  {
    assert log'[inverse[i]] == log[perm[inverse[i]]];
  }

  lemma FirstBelow<S>(log: seq<Registration<S>>, httpMethod: string, path: string, k: nat, i: nat)
    requires IsFirst(log, httpMethod, path, k) && i < |log| && Serves(log[i], httpMethod, path)
    ensures k <= i && Serves(log[k], httpMethod, path)
  {
  }

  ghost predicate OrderKept<S>(log': seq<Registration<S>>, perm: seq<nat>)
    requires |perm| == |log'|
  {
    forall i, j :: 0 <= i < j < |log'| && Conflict(log'[i], log'[j]) ==> perm[i] < perm[j]
  }

  /** The first serving registrations before and after a reordering are the same one. */
  lemma SameFirst<S>(log: seq<Registration<S>>, log': seq<Registration<S>>, perm: seq<nat>,
      inverse: seq<nat>, httpMethod: string, path: string, k: nat, k': nat)
    requires Reordered(log, log', perm, inverse) && OrderKept(log', perm)
    requires k < |log| && IsFirst(log, httpMethod, path, k)
    requires k' < |log'| && IsFirst(log', httpMethod, path, k')
    ensures perm[k'] == k
  {
    hide Conflict, Serves, Reordered, OrderKept, IsFirst;
    ReorderedAt(log, log', perm, inverse, k);
    ReorderedAt(log, log', perm, inverse, k');
    var j := inverse[k];
    FirstServes(log, httpMethod, path, k);
    FirstServes(log', httpMethod, path, k');
    FirstBelow(log, httpMethod, path, k, perm[k']);
    FirstBelow(log', httpMethod, path, k', j);
    BothServed(log'[k'], log'[j], httpMethod, path);
    KeptPair(log', perm, k', j);
  }

  lemma KeptPair<S>(log': seq<Registration<S>>, perm: seq<nat>, i: nat, j: nat)
    requires |perm| == |log'| && OrderKept(log', perm)
    requires i <= j < |log'| && Conflict(log'[i], log'[j])
    ensures perm[i] <= perm[j]
  {
  }

  lemma FirstServes<S>(log: seq<Registration<S>>, httpMethod: string, path: string, k: nat)
    requires IsFirst(log, httpMethod, path, k)
    ensures k < |log| && Serves(log[k], httpMethod, path)
  {
  }

  /** Any reordering that keeps conflicting registrations in their order answers every request alike. */
  lemma {:induction false} ReorderingSafe<S>(log: seq<Registration<S>>, log': seq<Registration<S>>, perm: seq<nat>,
      inverse: seq<nat>, httpMethod: string, path: string)
    requires Reordered(log, log', perm, inverse)
    requires OrderKept(log', perm)
    ensures FirstMatch(log', httpMethod, path) == FirstMatch(log, httpMethod, path)
  {
    hide FirstMatch, Serves, Conflict;
    FirstMatchAt(log, httpMethod, path);
    FirstMatchAt(log', httpMethod, path);
    if k': nat :| IsFirst(log', httpMethod, path, k') {
      ReorderedAt(log, log', perm, inverse, k');
      assert Serves(log[perm[k']], httpMethod, path);
      var k: nat :| IsFirst(log, httpMethod, path, k);
      FirstServes(log, httpMethod, path, k);
      SameFirst(log, log', perm, inverse, httpMethod, path, k, k');
    } else {
      forall i | 0 <= i < |log| ensures !Serves(log[i], httpMethod, path) {
        ReorderedAt(log, log', perm, inverse, i);
        assert !Serves(log'[inverse[i]], httpMethod, path);
      }
    }
  }

  /** Pairwise conflict-free registrations may be made in any order at all. */
  lemma {:induction false} DisjointRoutesCommute<S>(log: seq<Registration<S>>, log': seq<Registration<S>>,
      perm: seq<nat>, inverse: seq<nat>, httpMethod: string, path: string)
    requires Reordered(log, log', perm, inverse)
    requires forall i, j :: 0 <= i < |log| && 0 <= j < |log| && i != j ==> !Conflict(log[i], log[j])
    ensures FirstMatch(log', httpMethod, path) == FirstMatch(log, httpMethod, path)
  {
    forall i, j | 0 <= i < j < |log'| ensures !Conflict(log'[i], log'[j]) {
      assert inverse[perm[i]] == i && inverse[perm[j]] == j;
      assert log'[i] == log[perm[i]] && log'[j] == log[perm[j]];
    }
    ReorderingSafe(log, log', perm, inverse, httpMethod, path);
  }

  /** The k-th registration is of this method and matches, no earlier one of it does, and the answer is its own. */
  ghost predicate AnsweredBy<S>(log: seq<Registration<S>>, httpMethod: string, path: string, k: nat, answer: Answer<S>)
  {
    && k < |log| && log[k].httpMethod == httpMethod
    && Match(log[k].entry.pattern, path) == Some(answer.captured)
    && answer.service == log[k].entry.service && answer.metadata == log[k].entry.metadata
    && forall i :: 0 <= i < k && log[i].httpMethod == httpMethod ==> Match(log[i].entry.pattern, path) == None
  }

  lemma {:induction false} FirstAnswers<S>(log: seq<Registration<S>>, httpMethod: string, path: string)
    ensures match FirstMatch(log, httpMethod, path)
            case Some(answer) => exists k: nat :: AnsweredBy(log, httpMethod, path, k, answer)
            case None => forall i :: 0 <= i < |log| && log[i].httpMethod == httpMethod ==>
                           Match(log[i].entry.pattern, path) == None
  {
    hide Match, FirstMatch;
    FirstMatchAt(log, httpMethod, path);
    if k: nat :| IsFirst(log, httpMethod, path, k) {
      assert FirstMatch(log, httpMethod, path) == Some(Reply(log[k].entry, path));
      forall i | 0 <= i < k && log[i].httpMethod == httpMethod ensures Match(log[i].entry.pattern, path) == None {
        assert !Serves(log[i], httpMethod, path);
      }
      assert AnsweredBy(log, httpMethod, path, k, Reply(log[k].entry, path));
    } else {
      forall i | 0 <= i < |log| && log[i].httpMethod == httpMethod ensures Match(log[i].entry.pattern, path) == None {
        assert !Serves(log[i], httpMethod, path);
      }
    }
  }

  // ----- the router -----

  class Router<S> {
    var routes: map<string, seq<RouteEntry<S>>>
    ghost var log: seq<Registration<S>>

    /** The table holds, under each method, that method's registrations in order. */
    ghost predicate Valid()
      reads this
    {
      forall httpMethod: string ::
        (if httpMethod in routes then routes[httpMethod] else []) == ForMethod(log, httpMethod)
    }

    constructor ()
      ensures Valid() && log == []
    {
      routes := map[];
      log := [];
    }

    method RouteWithMetadata(httpMethod: string, pattern: Pattern, service: S, metadata: RouteMetadata)
      requires Valid()
      modifies this
      ensures Valid()
      ensures log == old(log) + [Registration(httpMethod, RouteEntry(pattern, service, metadata))]
    {
      var entry := RouteEntry(pattern, service, metadata);
      if httpMethod !in routes {
        routes := routes[httpMethod := []];
      }
      routes := routes[httpMethod := routes[httpMethod] + [entry]];
      log := log + [Registration(httpMethod, entry)];
      forall v: string ensures (if v in routes then routes[v] else []) == ForMethod(log, v) {
        ForMethodAppend(old(log), Registration(httpMethod, entry), v);
        assert (if v in old(routes) then old(routes)[v] else []) == ForMethod(old(log), v);
      }
    }

    method Route(httpMethod: string, pattern: Pattern, service: S)
      requires Valid()
      modifies this
      ensures Valid()
      ensures log == old(log) + [Registration(httpMethod, RouteEntry(pattern, service, RouteMetadata(None)))]
    {
      RouteWithMetadata(httpMethod, pattern, service, RouteMetadata(None));
    }

    /** `match_request` answers with the first matching registration of the method, after any run of registrations. */
    method MatchRequest(httpMethod: string, path: string) returns (r: Option<Answer<S>>)
      requires Valid()
      ensures r == FirstMatch(log, httpMethod, path)
      ensures match r
              case Some(answer) => exists k: nat :: AnsweredBy(log, httpMethod, path, k, answer)
              case None => forall i :: 0 <= i < |log| && log[i].httpMethod == httpMethod ==>
                             Match(log[i].entry.pattern, path) == None
    {
      FirstAnswers(log, httpMethod, path);
      FirstOfMethod(log, httpMethod, path);
      assert (if httpMethod in routes then routes[httpMethod] else []) == ForMethod(log, httpMethod);
      if httpMethod in routes {
        var entries := routes[httpMethod];
        assert entries[0..] == entries;
        for i := 0 to |entries|
          invariant FirstEntry(entries, path) == FirstEntry(entries[i..], path)
        {
          assert entries[i..][1..] == entries[i + 1..];
          var captured := RouteMatcher(entries[i].pattern, path);
          if captured.Some? {
            return Some(Answer(entries[i].service, captured.value, entries[i].metadata));
          }
        }
      }
      r := None;
    }
  }

  function FirstEntry<S>(entries: seq<RouteEntry<S>>, path: string): Option<Answer<S>>
  {
    if entries == [] then None
    else if Match(entries[0].pattern, path).Some? then Some(Reply(entries[0], path))
    else FirstEntry(entries[1..], path)
  }

  lemma {:induction false} FirstOfMethod<S>(log: seq<Registration<S>>, httpMethod: string, path: string)
    ensures FirstEntry(ForMethod(log, httpMethod), path) == FirstMatch(log, httpMethod, path)
  {
    if log != [] {
      FirstOfMethod(log[1..], httpMethod, path);
      if log[0].httpMethod == httpMethod {
        assert ForMethod(log, httpMethod)[1..] == ForMethod(log[1..], httpMethod);
      } else {
        assert ForMethod(log, httpMethod) == ForMethod(log[1..], httpMethod);
      }
    }
  }
}
