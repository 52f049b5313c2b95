/** Header rebuilding: the header layer's matcher loop and the retry policy's clone loop. */
module Headers {
  import opened Text

  /** One name of a header map with all its values; iteration visits names in order of insertion. */
  datatype Entry = Entry(name: string, values: seq<string>)

  type HeaderMap = seq<Entry>

  datatype Field = Field(name: string, value: string)

  function Names(h: HeaderMap): seq<string>
  {
    if h == [] then [] else [h[0].name] + Names(h[1..])
  }

  /** Every name once, with at least one value. */
  ghost predicate Valid(h: HeaderMap)
  {
    h == [] || (h[0].values != [] && h[0].name !in Names(h[1..]) && Valid(h[1..]))
  }

  function EntryFields(name: string, values: seq<string>): seq<Field>
  {
    if values == [] then [] else [Field(name, values[0])] + EntryFields(name, values[1..])
  }

  /** All values of a name, in order. */
  lemma {:induction false} EntryFieldsAt(name: string, values: seq<string>)
    ensures |EntryFields(name, values)| == |values|
    ensures forall i :: 0 <= i < |values| ==> EntryFields(name, values)[i] == Field(name, values[i])
  {
    if values != [] {
      EntryFieldsAt(name, values[1..]);
      assert forall i :: 0 < i < |values| ==> values[i] == values[1..][i - 1];
    }
  }

  /** What iterating over the map yields. */
  function Fields(h: HeaderMap): seq<Field>
  {
    if h == [] then [] else EntryFields(h[0].name, h[0].values) + Fields(h[1..])
  }

  /** `HeaderMap::insert`: replaces all values of a present name in place, else appends. */
  function Put(h: HeaderMap, name: string, value: string): HeaderMap
  {
    if h == [] then [Entry(name, [value])]
    else if h[0].name == name then [Entry(name, [value])] + h[1..]
    else [h[0]] + Put(h[1..], name, value)
  }

  /** Renames a header or drops it; stands for the matcher together with the validity test on its result. */
  type Matcher = string -> Option<string>

  function PutMatched(matcher: Matcher, h: HeaderMap, field: Field): HeaderMap
  {
    var key := matcher(field.name);
    if key.Some? then Put(h, key.value, field.value) else h
  }

  function PutAll(matcher: Matcher, h: HeaderMap, fields: seq<Field>): HeaderMap
    decreases |fields|
  {
    if fields == [] then h else PutAll(matcher, PutMatched(matcher, h, fields[0]), fields[1..])
  }

  /** The map that replaces the headers. */
  function Rebuilt(matcher: Matcher, h: HeaderMap): HeaderMap
  {
    PutAll(matcher, [], Fields(h))
  }

  function Keep(): Matcher
  {
    (name: string) => Some(name)
  }

  /** The header loops of `HeaderLayer::call`, for requests and responses alike. */
  method RebuildHeaders(matcher: Matcher, headers: HeaderMap) returns (newHeaders: HeaderMap)
    ensures newHeaders == Rebuilt(matcher, headers)
  {
    newHeaders := [];
    var fields := Fields(headers);
    assert fields[0..] == fields;
    for i := 0 to |fields|
      invariant PutAll(matcher, newHeaders, fields[i..]) == PutAll(matcher, [], fields)
    {
      assert fields[i..][1..] == fields[i + 1..];
      var newKey := matcher(fields[i].name);
      if newKey.Some? {
        newHeaders := Put(newHeaders, newKey.value, fields[i].value);
      }
    }
  }

  /** The header loop of `clone_request`. */
  method CloneHeaders(headers: HeaderMap) returns (newHeaders: HeaderMap)
    ensures newHeaders == Rebuilt(Keep(), headers)
  {
    newHeaders := [];
    var fields := Fields(headers);
    assert fields[0..] == fields;
    for i := 0 to |fields|
      invariant PutAll(Keep(), newHeaders, fields[i..]) == PutAll(Keep(), [], fields)
    {
      assert fields[i..][1..] == fields[i + 1..];
      newHeaders := Put(newHeaders, fields[i].name, fields[i].value);
    }
  }

  // ----- what a rebuild does -----

  lemma {:induction false} PutAllConcat(matcher: Matcher, h: HeaderMap, a: seq<Field>, b: seq<Field>)
    ensures PutAll(matcher, h, a + b) == PutAll(matcher, PutAll(matcher, h, a), b)
    decreases |a|
  {
    if a == [] {
      assert a + b == b;
    } else {
      assert (a + b)[1..] == a[1..] + b;
      PutAllConcat(matcher, PutMatched(matcher, h, a[0]), a[1..], b);
    }
  }

  lemma {:induction false} PutTwice(h: HeaderMap, name: string, v: string, w: string)
    ensures Put(Put(h, name, v), name, w) == Put(h, name, w)
  {
    if h != [] {
      if h[0].name == name {
        assert ([Entry(name, [v])] + h[1..])[1..] == h[1..];
      } else {
        PutTwice(h[1..], name, v, w);
        assert ([h[0]] + Put(h[1..], name, v))[1..] == Put(h[1..], name, v);
      }
    }
  }

  /** All values of one name come down to the last. */
  lemma {:induction false} PutEntry(matcher: Matcher, h: HeaderMap, name: string, values: seq<string>)
    requires values != []
    ensures PutAll(matcher, h, EntryFields(name, values)) ==
            PutMatched(matcher, h, Field(name, values[|values| - 1]))
    decreases |values|
  {
    var fields := EntryFields(name, values);
    assert fields[1..] == EntryFields(name, values[1..]);
    var next := PutMatched(matcher, h, fields[0]);
    if |values| > 1 {
      PutEntry(matcher, next, name, values[1..]);
      if matcher(name).Some? { PutTwice(h, matcher(name).value, values[0], values[|values| - 1]); }
    } else {
      assert PutAll(matcher, next, []) == next;
    }
  }

  /** Each name with its last value only. */
  function LastValues(h: HeaderMap): HeaderMap
  {
    if h == [] then []
    else [Entry(h[0].name, if h[0].values == [] then [] else [h[0].values[|h[0].values| - 1]])] + LastValues(h[1..])
  }

  lemma {:induction false} LastValuesNames(h: HeaderMap)
    ensures Names(LastValues(h)) == Names(h)
    ensures Valid(h) ==> Valid(LastValues(h))
    ensures LastValues(LastValues(h)) == LastValues(h)
  {
    if h != [] {
      LastValuesNames(h[1..]);
      assert LastValues(h)[1..] == LastValues(h[1..]);
    }
  }

  /** A rebuild sees only the last value of each name. */
  lemma {:induction false} RebuildLast(matcher: Matcher, start: HeaderMap, h: HeaderMap)
    requires Valid(h)
    ensures PutAll(matcher, start, Fields(LastValues(h))) == PutAll(matcher, start, Fields(h))
    decreases |h|
  {
    if h != [] {
      var name, values := h[0].name, h[0].values;
      var last := [values[|values| - 1]];
      assert LastValues(h)[0] == Entry(name, last) && LastValues(h)[1..] == LastValues(h[1..]);
      PutEntry(matcher, start, name, values);
      PutEntry(matcher, start, name, last);
      var next := PutMatched(matcher, start, Field(name, last[0]));
      PutAllConcat(matcher, start, EntryFields(name, values), Fields(h[1..]));
      PutAllConcat(matcher, start, EntryFields(name, last), Fields(LastValues(h[1..])));
      RebuildLast(matcher, next, h[1..]);
    }
  }

  lemma {:induction false} PutNew(h: HeaderMap, name: string, value: string)
    requires name !in Names(h)
    ensures Put(h, name, value) == h + [Entry(name, [value])]
    ensures Names(h + [Entry(name, [value])]) == Names(h) + [name]
  {
    var entry := Entry(name, [value]);
    if h == [] {
      assert [entry][1..] == [];
    } else {
      PutNew(h[1..], name, value);
      assert (h + [entry])[1..] == h[1..] + [entry];
    }
  }

  lemma {:induction false} PutNothing(start: HeaderMap)
    ensures PutAll(Keep(), start, []) == start
  {
  }

  /** Names new to a map stay new when the first of them has been appended. */
  lemma {:induction false} NamesApart(start: HeaderMap, h: HeaderMap)
    requires h != [] && Valid(h) && forall n <- Names(h) :: n !in Names(start)
    ensures h[0].name !in Names(start)
    ensures forall value, n :: n in Names(h[1..]) ==> n !in Names(start + [Entry(h[0].name, [value])])
  {
    assert Names(h)[0] == h[0].name && forall n <- Names(h[1..]) :: n in Names(h);
    forall value ensures Names(start + [Entry(h[0].name, [value])]) == Names(start) + [h[0].name] {
      PutNew(start, h[0].name, value);
    }
  }

  lemma {:induction false} CloneFrom(start: HeaderMap, h: HeaderMap)
    requires Valid(h) && forall n <- Names(h) :: n !in Names(start)
    ensures PutAll(Keep(), start, Fields(h)) == start + LastValues(h)
    decreases |h|
  {
    hide Put, PutAll, EntryFields, Names;
    if h == [] {
      assert start + [] == start;
      PutNothing(start);
    } else {
      var name, values, rest := h[0].name, h[0].values, h[1..];
      var entry := Entry(name, [values[|values| - 1]]);
      NamesApart(start, h);
      CloneStep(start, name, values, Fields(rest));
      CloneFrom(start + [entry], rest);
      Regroup(start, [entry], LastValues(rest), LastValues(h));
    }
  }

  /** Cloning a new name appends it with its last value. */
  lemma {:induction false} CloneStep(start: HeaderMap, name: string, values: seq<string>, fields: seq<Field>)
    requires values != [] && name !in Names(start)
    ensures PutAll(Keep(), start, EntryFields(name, values) + fields) ==
            PutAll(Keep(), start + [Entry(name, [values[|values| - 1]])], fields)
  {
    hide PutAll, EntryFields, Names;
    PutAllConcat(Keep(), start, EntryFields(name, values), fields);
    PutEntry(Keep(), start, name, values);
    PutNew(start, name, values[|values| - 1]);
  }

  /** A clone keeps names and order, and of each name the last value; cloning again changes nothing. */
  lemma {:induction false} CloneKeepsLast(h: HeaderMap)
    requires Valid(h)
    ensures Rebuilt(Keep(), h) == LastValues(h)
    ensures Rebuilt(Keep(), Rebuilt(Keep(), h)) == Rebuilt(Keep(), h)
  {
    CloneFrom([], h);
    LastValuesNames(h);
    CloneFrom([], LastValues(h));
  }

  /** A clone is the original exactly when no name has several values. */
  lemma {:induction false} CloneExact(h: HeaderMap)
    requires Valid(h)
    ensures Rebuilt(Keep(), h) == h <==> forall e <- h :: |e.values| == 1
  {
    CloneKeepsLast(h);
    SingleValues(h);
  }

  /** The smallest loss: of two values of one header the first is gone. */
  lemma CloneLosesValue()
    ensures Rebuilt(Keep(), [Entry("a", ["1", "2"])]) == [Entry("a", ["2"])]
  {
    var h := [Entry("a", ["1", "2"])];
    assert h[1..] == [];
    CloneKeepsLast(h);
    assert LastValues(h) == [Entry("a", ["2"])] + LastValues(h[1..]);
  }

  lemma {:induction false} SingleValues(h: HeaderMap)
    requires Valid(h)
    ensures LastValues(h) == h <==> forall e <- h :: |e.values| == 1
  {
    if h != [] {
      SingleValues(h[1..]);
      assert h == [h[0]] + h[1..];
      assert LastValues(h)[0].name == h[0].name && LastValues(h)[1..] == LastValues(h[1..]);
      assert LastValues(h)[0] == h[0] <==> |h[0].values| == 1;
      assert (forall e <- h :: |e.values| == 1) <==> |h[0].values| == 1 && forall e <- h[1..] :: |e.values| == 1;
    }
  }

  /** What the k-th retry of a run sends: each attempt clones what the one before was given. */
  function Clones(h: HeaderMap, k: nat): HeaderMap
  {
    if k == 0 then h else Rebuilt(Keep(), Clones(h, k - 1))
  }

  lemma {:induction false} ClonesKeepLast(h: HeaderMap, k: nat)
    requires Valid(h) && k > 0
    ensures Clones(h, k) == LastValues(h)
  {
    CloneKeepsLast(h);
    if k > 1 { ClonesKeepLast(h, k - 1); }
  }

  /**
   * Behind a header matcher every retry carries the headers of the first attempt: the matcher makes the same map
   * of the original request and of its k-fold clone, although a clone has lost repeated values.
   */
  lemma {:induction false} RetriesCarrySameHeaders(matcher: Matcher, h: HeaderMap, k: nat)
    requires Valid(h)
    ensures Rebuilt(matcher, Clones(h, k)) == Rebuilt(matcher, h)
  {
    if k > 0 {
      ClonesKeepLast(h, k);
      RebuildLast(matcher, [], h);
    }
  }

  // ----- what a name holds after a rebuild -----

  function Lookup(h: HeaderMap, name: string): Option<seq<string>>
  {
    if h == [] then None else if h[0].name == name then Some(h[0].values) else Lookup(h[1..], name)
  }

  /** The last field the matcher sends to this name. */
  function LastMatched(matcher: Matcher, fields: seq<Field>, name: string): Option<string>
  {
    if fields == [] then None
    else
      var n := |fields| - 1;
      if matcher(fields[n].name) == Some(name) then Some(fields[n].value) else LastMatched(matcher, fields[..n], name)
  }

  lemma {:induction false} LookupPut(h: HeaderMap, name: string, value: string, other: string)
    ensures Lookup(Put(h, name, value), other) == if other == name then Some([value]) else Lookup(h, other)
  {
    if h == [] {
      assert [Entry(name, [value])][1..] == [];
    } else if h[0].name == name {
      assert ([Entry(name, [value])] + h[1..])[1..] == h[1..];
    } else {
      LookupPut(h[1..], name, value, other);
      assert ([h[0]] + Put(h[1..], name, value))[1..] == Put(h[1..], name, value);
    }
  }

  lemma {:induction false} LookupPutAll(matcher: Matcher, fields: seq<Field>, name: string)
    ensures var last := LastMatched(matcher, fields, name);
            Lookup(PutAll(matcher, [], fields), name) == if last.Some? then Some([last.value]) else None
    decreases |fields|
  {
    if fields != [] {
      var n := |fields| - 1;
      assert fields == fields[..n] + [fields[n]];
      PutAllConcat(matcher, [], fields[..n], [fields[n]]);
      var before := PutAll(matcher, [], fields[..n]);
      assert PutAll(matcher, before, [fields[n]]) == PutMatched(matcher, before, fields[n]);
      LookupPutAll(matcher, fields[..n], name);
      if matcher(fields[n].name).Some? { LookupPut(before, matcher(fields[n].name).value, fields[n].value, name); }
    }
  }

  /** After a rebuild a name holds one value, the last one the matcher renames to it, and is absent if there is none. */
  lemma {:induction false} RebuiltLookup(matcher: Matcher, h: HeaderMap, name: string)
    ensures var last := LastMatched(matcher, Fields(h), name);
            Lookup(Rebuilt(matcher, h), name) == if last.Some? then Some([last.value]) else None
  {
    LookupPutAll(matcher, Fields(h), name);
  }
}
