/** Template texts that the compiler reads differently from what they look like. */
module MisreadTemplates {
  import opened Text
  import opened PathTemplate
  import opened PathCompiler
  import opened TemplateSyntax

  // ----- two colons behind a variable -----

  function Extended(parts: seq<string>, tail: string): seq<string>
    requires parts != []
  {
    parts[..|parts| - 1] + [parts[|parts| - 1] + tail]
  }

  lemma ExtendedRest(first: string, rest: seq<string>, tail: string)
    requires rest != []
    ensures Extended([first] + rest, tail) == [first] + Extended(rest, tail)
  {
  }

  lemma {:induction false} CountExtended(s: string, tail: string)
    requires Unbraced(tail)
    ensures Count(s + tail, '{') == Count(s, '{') && Count(s + tail, '}') == Count(s, '}')
  {
    CountPlain(tail);
    CountConcat(s, tail, '{');
    CountConcat(s, tail, '}');
  }

  /** A last raw segment that closes the braces, or needs no closing. */
  lemma {:induction false} MergeLast(last: string, depth: nat, buffer: string)
    requires last != ""
    requires var opens, closes := Count(last, '{'), Count(last, '}');
             if depth > 0 then depth + opens == closes else opens <= closes
    ensures Merge([last], depth, buffer) == Some([if depth > 0 then buffer + "/" + last else last])
  {
    hide Count;
    assert [last][1..] == [];
    assert Merge([], 0, "") == Some([]);
    assert Merge([], 0, buffer) == Some([]);
    var text := if depth > 0 then buffer + "/" + last else last;
    assert [text] + [] == [text];
  }

  /** With the braces closed at the end, a plain text behind the last raw segment stays behind the last merged one. */
  lemma {:induction false} MergeExtended(raw: seq<string>, depth: nat, buffer: string, tail: string)
    requires raw != [] && raw[|raw| - 1] != "" && Unbraced(tail)
    requires FinalDepth(raw, depth) == Some(0)
    ensures var merged := Merge(raw, depth, buffer);
            && merged.Some? && merged.value != []
            && Merge(Extended(raw, tail), depth, buffer) == Some(Extended(merged.value, tail))
    decreases |raw|
  {
    hide Count;
    var first, rest := raw[0], raw[1..];
    var opens, closes := Count(first, '{'), Count(first, '}');
    assert raw == [first] + rest;
    if rest == [] {
      CountExtended(first, tail);
      assert Extended(raw, tail) == [first + tail] && raw == [first];
      MergeLast(first, depth, buffer);
      MergeLast(first + tail, depth, buffer);
      var text := if depth > 0 then buffer + "/" + first else first;
      assert buffer + "/" + (first + tail) == buffer + "/" + first + tail;
      assert Extended([text], tail) == [text + tail];
    } else {
      ExtendedRest(first, rest, tail);
      var raw' := [first] + Extended(rest, tail);
      assert raw'[0] == first && raw'[1..] == Extended(rest, tail);
      assert rest[|rest| - 1] == raw[|raw| - 1];
      if first == "" {
        CountPlain(first);
        MergeExtended(rest, depth, buffer, tail);
      } else if depth > 0 {
        var text := buffer + "/" + first;
        if depth + opens == closes {
          MergeExtended(rest, 0, "", tail);
          ExtendedRest(text, Merge(rest, 0, "").value, tail);
        } else {
          MergeExtended(rest, depth + opens - closes, text, tail);
        }
      } else if opens > closes {
        MergeExtended(rest, opens - closes, buffer + first, tail);
      } else {
        MergeExtended(rest, 0, buffer, tail);
        ExtendedRest(first, Merge(rest, 0, buffer).value, tail);
      }
    }
  }

  lemma {:induction false} SplitExtended(s: string, tail: string)
    requires '/' !in tail
    ensures Split(s + tail, '/') == Extended(Split(s, '/'), tail)
  {
    hide Split;
    var parts := Split(s, '/');
    JoinOfSplit(s, '/');
    JoinExtendLast(parts, tail, '/');
    assert parts[|parts| - 1] in parts;
    forall p | p in Extended(parts, tail) ensures '/' !in p {
      if p != parts[|parts| - 1] + tail { assert p in parts; }
    }
    SplitOfJoin(Extended(parts, tail), '/');
  }

  /** Printed segments with a plain text behind the last one: all come back, the text included. */
  lemma MergeWithTail(texts: seq<string>, segments: seq<Segment>, tail: string)
    requires SpellsAll(texts, segments) && texts != [] && '/' !in tail && Unbraced(tail)
    ensures Merge(Split(Join(Extended(texts, tail), '/'), '/'), 0, "") == Some(Extended(texts, tail))
  {
    hide Split, Join, Merge, FinalDepth, SpellsAll, Reopened;
    var raw := Split(Join(texts, '/'), '/');
    JoinExtendLast(texts, tail, '/');
    SplitExtended(Join(texts, '/'), tail);
    MergeUndoesSplit(texts, segments);
    SpelledClosed(texts, segments);
    ReopenedJoin(texts);
    ReopenedNonEmpty(texts, segments);
    assert raw[|raw| - 1] in raw;
    MergeExtended(raw, 0, "", tail);
  }

  lemma {:induction false} ClassifyConcat(a: seq<string>, b: seq<string>)
    ensures ClassifyAll(a + b) == ClassifyAll(a) + ClassifyAll(b)
  {
    hide Classify;
    if a == [] {
      assert a + b == b;
    } else {
      assert (a + b)[0] == a[0] && (a + b)[1..] == a[1..] + b;
      ClassifyConcat(a[1..], b);
    }
  }

  /** A closing brace that is not at the end makes no variable. */
  lemma ClassifyTail(text: string, variable: Segment, a: string)
    requires variable.Variable? && Spells(text, variable) && Unbraced(a)
    ensures ClassifyAll([text + ":" + a]) == [Single(Literal(text + ":" + a))]
  {
    hide VariableParts, ClassifyPieces, Join, PieceTexts;
    var path: string := text + ":" + a;
    assert path[0] == '{' && path[|path| - 1] == if a == "" then ':' else a[|a| - 1];
    assert Classify(path) == Single(Literal(path));
    assert [path][1..] == [];
  }

  lemma CutLastColon(text: string, path: string, verb: string)
    requires text == "/" + path + ":" + verb && ':' !in verb
    ensures CutVerb(StripSlash(text)) == (path, Some(verb))
  {
    hide LastIndex;
    var stripped := path + [':'] + verb;
    assert StripSlash(text) == stripped;
    LastIndexAt(path, ':', verb);
    assert stripped[..|path|] == path && stripped[|path| + 1..] == verb;
  }

  /**
   * A variable with two colons behind it, after any printed segments, is compiled as a literal: the last colon
   * alone is the verb's, and a segment that does not end in its brace is no variable.
   */
  lemma {:induction false} VariableBeforeTwoColons(texts: seq<string>, segments: seq<Segment>, text: string,
      variable: Segment, a: string, verb: string)
    requires SpellsAll(texts, segments)
    requires variable.Variable? && SegmentOk(variable) && Spells(text, variable)
    requires Unbraced(a) && '/' !in a && ':' !in verb
    ensures Parse("/" + Join(texts + [text + ":" + a], '/') + ":" + verb) ==
            Some(Template(segments + [Single(Literal(text + ":" + a))], Some(verb)))
  {
    hide Split, Merge, Join, ClassifyAll, CutVerb, Spells, SegmentOk;
    var last, all := text + ":" + a, texts + [text];
    var path := Join(texts + [last], '/');
    CutLastColon("/" + path + ":" + verb, path, verb);
    assert SpellsAll(all, segments + [variable]);
    MergeWithTail(all, segments + [variable], ":" + a);
    assert text + (":" + a) == last && Extended(all, ":" + a) == texts + [last];
    ClassifyConcat(texts, [last]);
    ClassifySpelledAll(texts, segments);
    ClassifyTail(text, variable, a);
  }

  // ----- braces that do not match -----

  /** The smallest kind of underflow: a second closing brace inside an open variable. */
  lemma OneBraceTooMany()
    ensures Parse("/{a/b}}").None?
  {
    PlainParse("{a/b}}", ["{a", "b}}"]);
    assert Count("{a", '{') == 1 && Count("{a", '}') == 0;
    assert Count("b}}", '{') == 0 && Count("b}}", '}') == 2;
    assert ["{a", "b}}"][1..] == ["b}}"];
  }

  /** An unclosed brace drops what was buffered since. */
  lemma UnclosedBraceDropped()
    ensures Parse("/a/{b") == Some(Template([Single(Literal("a"))], None))
  {
    PlainParse("a/{b", ["a", "{b"]);
    CountPlain("a");
    CountBraced("b");
    MergeWhole("a", ["{b"]);
    MergeOpen("{b", []);
    ClassifyOne("a");
    hide *;
    assert ["a"] + ["{b"] == ["a", "{b"] && ["{b"] + [] == ["{b"];
    assert "{" + "b" == "{b";
  }

  lemma {:induction false} MergeOpen(first: string, rest: seq<string>)
    requires first != "" && Count(first, '{') > Count(first, '}')
    ensures Merge([first] + rest, 0, "") == Merge(rest, Count(first, '{') - Count(first, '}'), first)
    ensures Merge([], Count(first, '{') - Count(first, '}'), first) == Some([])
  {
    hide Count;
    assert ([first] + rest)[1..] == rest && "" + first == first;
  }

  lemma ClassifyOne(text: string)
    requires !IsBraced(text) && text != "*" && text != "**"
    ensures ClassifyAll([text]) == [Single(Literal(text))]
  {
    hide VariableParts, ClassifyPieces;
    assert [text][1..] == [];
  }

  /** A closing brace outside a variable neither underflows nor ends anything: it is part of a literal, as in /a}/b. */
  lemma StrayBraceKept(a: string, b: string)
    requires Unbraced(a) && '/' !in a && ':' !in a
    requires Unbraced(b) && '/' !in b && ':' !in b && b != "" && b != "*" && b != "**"
    ensures Parse("/" + Join([a + "}", b], '/')) == Some(Template([Single(Literal(a + "}")), Single(Literal(b))], None))
  {
    hide Count, Merge, Split, Parse, ClassifyAll;
    var first := a + "}";
    CountBraced(a);
    CountPlain(b);
    assert Join([first, b], '/') == first + ['/'] + b by { assert [first, b][1..] == [b]; }
    assert first[|first| - 1] == '}' && (|a| > 0 ==> first[0] == a[0] && a[0] in a);
    PlainParse(Join([first, b], '/'), [first, b]);
    MergeWhole(first, [b]);
    MergeWhole(b, []);
    MergeNothing();
    assert [first] + [b] == [first, b] && [b] + [] == [b];
    assert Merge([first, b], 0, "") == Some([first, b]);
    ClassifyOne(first);
    ClassifyOne(b);
    ClassifyConcat([first], [b]);
    assert [Single(Literal(first))] + [Single(Literal(b))] == [Single(Literal(first)), Single(Literal(b))];
  }

  lemma MergeNothing()
    ensures Merge([], 0, "") == Some([])
  {
  }

  /** An empty pattern is one empty literal, not the "*" of a missing one. */
  lemma EmptyPatternIsLiteral(f: string)
    requires Unbraced(f) && '/' !in f && ':' !in f && '=' !in f
    ensures Parse("/" + ("{" + (f + "=") + "}")) == Some(Template([Variable(f, [Literal("")])], None))
  {
    hide Count, Merge, Split, Parse, ClassifyAll;
    var text := "{" + (f + "=") + "}";
    CountBraced(f + "=");
    assert Join([text], '/') == text;
    PlainParse(text, [text]);
    MergeWhole(text, []);
    MergeNothing();
    assert [text] + [] == [text];
    EmptyPatternClassified(f);
  }

  lemma EmptyPatternClassified(f: string)
    requires '=' !in f
    ensures ClassifyAll(["{" + (f + "=") + "}"]) == [Variable(f, [Literal("")])]
  {
    hide Split, VariableParts;
    var text: string := "{" + (f + "=") + "}";
    assert text[0] == '{' && text[|text| - 1] == '}' && text[1..|text| - 1] == f + "=";
    EmptyPatternParts(f);
    SplitFree("", '/');
    assert [text][1..] == [] && [""][1..] == [];
    assert ClassifyPieces([""]) == [Literal("")];
    assert Classify(text) == Variable(f, [Literal("")]);
  }

  lemma EmptyPatternParts(f: string)
    requires '=' !in f
    ensures VariableParts(f + "=") == (f, "")
  {
    var content := f + ['='] + "";
    assert f + "=" == content;
    FirstIndexAt(f, '=', "");
    assert content[..|f|] == f && content[|f| + 1..] == "";
  }

  /** Parsing a text without a colon, given its parts between slashes. */
  lemma {:induction false} PlainParse(path: string, raw: seq<string>)
    requires ':' !in path && raw != [] && AllFree(raw, '/') && path == Join(raw, '/')
    ensures var merged := Merge(raw, 0, "");
            Parse("/" + path) == if merged.None? then None else Some(Template(ClassifyAll(merged.value), None))
  {
    hide Split, Merge, ClassifyAll, Join;
    assert StripSlash("/" + path) == path;
    SplitOfJoin(raw, '/');
  }
}
