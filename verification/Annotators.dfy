/** Annotators: which of them decides what a metadata key ends with. */
module Annotators {
  import opened Text
  import opened Headers
  import opened Metadata

  /** What an annotator makes of a request, given the extension map that the earlier ones have left in it. */
  type Annotator = Option<HeaderMap> -> HeaderMap

  /** An empty answer changes nothing; the first other one becomes the map; a later one is inserted item by item. */
  function Absorb(extension: Option<HeaderMap>, metadata: HeaderMap): Option<HeaderMap>
  {
    if metadata == [] then extension
    else if extension.Some? then Some(PutAll(Keep(), extension.value, Fields(metadata)))
    else Some(metadata)
  }

  function Annotated(annotators: seq<Annotator>, extension: Option<HeaderMap>): Option<HeaderMap>
  {
    if annotators == [] then extension
    else Annotated(annotators[1..], Absorb(extension, annotators[0](extension)))
  }

  /** What the annotators answer, one after the other. */
  function Outputs(annotators: seq<Annotator>, extension: Option<HeaderMap>): seq<HeaderMap>
  {
    if annotators == [] then []
    else
      var metadata := annotators[0](extension);
      [metadata] + Outputs(annotators[1..], Absorb(extension, metadata))
  }

  /** The loop over the annotators, and in it the loop over the items of one answer. */
  method Annotate(annotators: seq<Annotator>, extension: Option<HeaderMap>) returns (r: Option<HeaderMap>)
    ensures r == Annotated(annotators, extension)
  {
    r := extension;
    assert annotators[0..] == annotators;
    for i := 0 to |annotators|
      invariant Annotated(annotators[i..], r) == Annotated(annotators, extension)
    {
      assert annotators[i..][1..] == annotators[i + 1..];
      var metadata := annotators[i](r);
      if metadata != [] {
        if r.Some? {
          var existing, items := r.value, Fields(metadata);
          assert items[0..] == items;
          for j := 0 to |items|
            invariant PutAll(Keep(), existing, items[j..]) == PutAll(Keep(), r.value, items)
          {
            assert items[j..][1..] == items[j + 1..];
            existing := Put(existing, items[j].name, items[j].value);
          }
          r := Some(existing);
        } else {
          r := Some(metadata);
        }
      }
    }
  }

  /** Empty answers change nothing; the first other one becomes the whole map, repeated values included. */
  lemma FirstAnswerKept(annotators: seq<Annotator>, i: nat)
    requires i < |annotators| && forall j :: 0 <= j < i ==> annotators[j](None) == []
    requires annotators[i](None) != []
    ensures Annotated(annotators[..i + 1], None) == Some(annotators[i](None))
    decreases |annotators|
  {
    var rest := annotators[..i + 1][1..];
    assert rest == annotators[1..][..i];
    if i > 0 {
      assert annotators[0](None) == [];
      assert forall j :: 0 <= j < |annotators[1..]| ==> annotators[1..][j] == annotators[j + 1];
      FirstAnswerKept(annotators[1..], i - 1);
    } else {
      assert rest == [];
    }
  }

  // ----- whose value stays -----

  function Items(extension: Option<HeaderMap>): seq<Field>
  {
    if extension.Some? then Fields(extension.value) else []
  }

  /** The last value of a key in the last map that has one. */
  function Latest(maps: seq<HeaderMap>, key: string): Option<string>
  {
    if maps == [] then None else OrElse(Latest(maps[1..], key), LastOf(Fields(maps[0]), key))
  }

  lemma {:induction false} LastOfConcat(a: seq<Field>, b: seq<Field>, key: string)
    ensures LastOf(a + b, key) == OrElse(LastOf(b, key), LastOf(a, key))
    decreases |b|
  {
    if b == [] {
      assert a + b == a;
    } else {
      var n := |b| - 1;
      assert (a + b)[..|a + b| - 1] == a + b[..n];
      LastOfConcat(a, b[..n], key);
    }
  }

  lemma {:induction false} LastOfEntry(name: string, values: seq<string>, key: string)
    ensures LastOf(EntryFields(name, values), key) ==
            if key == name && values != [] then Some(values[|values| - 1]) else None
    decreases |values|
  {
    if values != [] {
      LastOfEntry(name, values[1..], key);
      LastOfConcat([Field(name, values[0])], EntryFields(name, values[1..]), key);
      LastOfOne(Field(name, values[0]), key);
    }
  }

  lemma {:induction false} LastOfOne(field: Field, key: string)
    ensures LastOf([field], key) == if field.name == key then Some(field.value) else None
  {
    assert [field][..0] == [];
  }

  lemma {:induction false} LastOfAbsent(h: HeaderMap, key: string)
    requires key !in Names(h)
    ensures LastOf(Fields(h), key) == None
  {
    if h != [] {
      assert Names(h)[0] == h[0].name && forall n <- Names(h[1..]) :: n in Names(h);
      LastOfAbsent(h[1..], key);
      LastOfEntry(h[0].name, h[0].values, key);
      LastOfConcat(EntryFields(h[0].name, h[0].values), Fields(h[1..]), key);
    }
  }

  lemma {:induction false} FieldsCons(entry: Entry, rest: HeaderMap, key: string)
    ensures LastOf(Fields([entry] + rest), key) ==
            OrElse(LastOf(Fields(rest), key), LastOf(EntryFields(entry.name, entry.values), key))
  {
    assert ([entry] + rest)[1..] == rest;
    LastOfConcat(EntryFields(entry.name, entry.values), Fields(rest), key);
  }

  lemma {:induction false} PutNames(h: HeaderMap, name: string, value: string)
    requires Valid(h)
    ensures Valid(Put(h, name, value))
    ensures forall n :: n in Names(Put(h, name, value)) <==> n in Names(h) || n == name
  {
    if h == [] {
      assert [Entry(name, [value])][1..] == [];
    } else if h[0].name == name {
      assert ([Entry(name, [value])] + h[1..])[1..] == h[1..];
    } else {
      PutNames(h[1..], name, value);
      assert ([h[0]] + Put(h[1..], name, value))[1..] == Put(h[1..], name, value);
    }
  }

  lemma {:induction false} LastOfPut(h: HeaderMap, name: string, value: string, key: string)
    requires Valid(h)
    ensures LastOf(Fields(Put(h, name, value)), key) == if key == name then Some(value) else LastOf(Fields(h), key)
  {
    hide LastOf, Fields, EntryFields, Names;
    LastOfEntry(name, [value], key);
    if h == [] {
      FieldsCons(Entry(name, [value]), [], key);
      NothingLast(key);
      assert [Entry(name, [value])] + [] == [Entry(name, [value])];
    } else {
      var rest := h[1..];
      assert h == [h[0]] + rest;
      FieldsCons(h[0], rest, key);
      if h[0].name == name {
        FieldsCons(Entry(name, [value]), rest, key);
        LastOfEntry(name, h[0].values, key);
        if key == name { LastOfAbsent(rest, key); }
      } else {
        LastOfPut(rest, name, value, key);
        FieldsCons(h[0], Put(rest, name, value), key);
        LastOfEntry(h[0].name, h[0].values, key);
      }
    }
  }

  lemma {:induction false} NothingLast(key: string)
    ensures LastOf(Fields([]), key) == None && LastOf([], key) == None
  {
  }

  lemma {:induction false} LastOfPutAll(h: HeaderMap, fields: seq<Field>, key: string)
    requires Valid(h)
    ensures Valid(PutAll(Keep(), h, fields))
    ensures LastOf(Fields(PutAll(Keep(), h, fields)), key) == OrElse(LastOf(fields, key), LastOf(Fields(h), key))
    decreases |fields|
  {
    hide Put, Fields, LastOf, Valid;
    if fields == [] {
      NothingLast(key);
    } else {
      var first, rest := fields[0], fields[1..];
      var next := Put(h, first.name, first.value);
      PutNames(h, first.name, first.value);
      LastOfPut(h, first.name, first.value, key);
      LastOfPutAll(next, rest, key);
      LastOfConcat([first], rest, key);
      LastOfOne(first, key);
      assert [first] + rest == fields;
      assert PutMatched(Keep(), h, first) == next;
    }
  }

  ghost predicate ValidIfAny(extension: Option<HeaderMap>)
  {
    extension.Some? ==> Valid(extension.value)
  }

  lemma {:induction false} AbsorbLast(extension: Option<HeaderMap>, metadata: HeaderMap, key: string)
    requires ValidIfAny(extension) && Valid(metadata)
    ensures ValidIfAny(Absorb(extension, metadata))
    ensures LastOf(Items(Absorb(extension, metadata)), key) ==
            OrElse(LastOf(Fields(metadata), key), LastOf(Items(extension), key))
  {
    hide LastOf, Fields, PutAll, Valid;
    NothingLast(key);
    if extension.Some? { LastOfPutAll(extension.value, Fields(metadata), key); }
  }

  /** Each key of the extension map holds the value of the last annotator that set it, else what it held before. */
  lemma {:induction false} LastAnnotatorWins(annotators: seq<Annotator>, extension: Option<HeaderMap>, key: string)
    requires ValidIfAny(extension) && forall m <- Outputs(annotators, extension) :: Valid(m)
    ensures LastOf(Items(Annotated(annotators, extension)), key) ==
            OrElse(Latest(Outputs(annotators, extension), key), LastOf(Items(extension), key))
    decreases |annotators|
  {
    hide LastOf, Items, Fields, Absorb, Valid;
    if annotators != [] {
      var metadata, rest := annotators[0](extension), annotators[1..];
      var next := Absorb(extension, metadata);
      var outputs := Outputs(annotators, extension);
      assert outputs[0] == metadata && outputs[1..] == Outputs(rest, next);
      assert metadata in outputs && forall m <- Outputs(rest, next) :: m in outputs;
      AbsorbLast(extension, metadata, key);
      LastAnnotatorWins(rest, next, key);
    }
  }

  /**
   * Through annotators and forwarding: a key ends with the value of the last annotator that set it, else with that
   * of an extension map the request came with, else with the last accepted header, else with what it held before.
   */
  lemma {:induction false} AnnotatorsTakePrecedence(annotators: seq<Annotator>, extension: Option<HeaderMap>,
      config: ForwardingConfig, syntax: Syntax, headers: seq<Field>, before: map<string, string>,
      after: map<string, string>, key: string)
    requires ValidIfAny(extension) && forall m <- Outputs(annotators, extension) :: Valid(m)
    requires Propagated(config, syntax, headers, Items(Annotated(annotators, extension)), before, after)
    ensures Get(after, key) ==
            OrElse(Latest(Outputs(annotators, extension), key),
                   OrElse(LastOf(Items(extension), key),
                          OrElse(LastForwarded(config, syntax, headers, key), Get(before, key))))
  {
    LastAnnotatorWins(annotators, extension, key);
  }
}
