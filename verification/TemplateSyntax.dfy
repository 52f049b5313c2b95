/** The template grammar in print: what a template looks like, and that the compiler reads it back. */
module TemplateSyntax {
  import opened Text
  import opened PathTemplate
  import opened PathCompiler

  // ----- printing -----

  predicate Unbraced(s: string)
  {
    '{' !in s && '}' !in s
  }

  predicate PieceOk(piece: Piece)
  {
    piece.Literal? ==>
      && piece.text != "" && piece.text != "*" && piece.text != "**"
      && '/' !in piece.text && Unbraced(piece.text)
  }

  predicate SegmentOk(segment: Segment)
  {
    match segment
    case Single(piece) => PieceOk(piece)
    case Variable(f, pieces) =>
      '/' !in f && '=' !in f && Unbraced(f) && pieces != [] && forall p <- pieces :: PieceOk(p)
  }

  function PieceText(piece: Piece): string
  {
    match piece
    case Literal(text) => text
    case Wildcard => "*"
    case DeepWildcard => "**"
  }

  function PieceTexts(pieces: seq<Piece>): (texts: seq<string>)
    ensures |texts| == |pieces|
  {
    if pieces == [] then [] else [PieceText(pieces[0])] + PieceTexts(pieces[1..])
  }

  /** A variable matching one component may leave its pattern out. */
  predicate Spells(text: string, segment: Segment)
  {
    match segment
    case Single(piece) => text == PieceText(piece)
    case Variable(f, pieces) =>
      || text == "{" + f + "=" + Join(PieceTexts(pieces), '/') + "}"
      || (pieces == [Wildcard] && text == "{" + f + "}")
  }

  ghost predicate SpellsAll(texts: seq<string>, segments: seq<Segment>)
  {
    |texts| == |segments| &&
    forall i :: 0 <= i < |texts| ==> SegmentOk(segments[i]) && Spells(texts[i], segments[i])
  }

  function VerbSuffix(verb: Option<string>): string
  {
    if verb.Some? then ":" + verb.value else ""
  }

  function Render(texts: seq<string>, verb: Option<string>): string
  {
    "/" + Join(texts, '/') + VerbSuffix(verb)
  }

  /** The last colon of a printed template is the one in front of its verb. */
  predicate ColonRule(texts: seq<string>, verb: Option<string>)
  {
    match verb
    case None => ':' !in Join(texts, '/')
    case Some(v) => ':' !in v
  }

  // ----- the brace merging undoes the split -----

  lemma PieceTextPlain(piece: Piece)
    requires PieceOk(piece)
    ensures PieceText(piece) != "" && '/' !in PieceText(piece) && Unbraced(PieceText(piece))
    ensures ClassifyPiece(PieceText(piece)) == piece
  {
  }

  lemma {:induction false} PieceTextsPlain(pieces: seq<Piece>)
    requires forall p <- pieces :: PieceOk(p)
    ensures AllFree(PieceTexts(pieces), '/')
    ensures forall t <- PieceTexts(pieces) :: t != "" && Unbraced(t)
    ensures ClassifyPieces(PieceTexts(pieces)) == pieces
  {
    if pieces != [] {
      PieceTextPlain(pieces[0]);
      assert forall p <- pieces[1..] :: p in pieces;
      PieceTextsPlain(pieces[1..]);
      assert PieceTexts(pieces)[1..] == PieceTexts(pieces[1..]);
    }
  }

  lemma {:induction false} CountPlain(s: string)
    requires Unbraced(s)
    ensures Count(s, '{') == 0 && Count(s, '}') == 0
  {
    CountFree(s, '{');
    CountFree(s, '}');
  }

  /** Braces at either end of a plain text. */
  lemma {:induction false} CountBraced(s: string)
    requires Unbraced(s)
    ensures Count("{" + s, '{') == 1 && Count("{" + s, '}') == 0
    ensures Count(s + "}", '{') == 0 && Count(s + "}", '}') == 1
    ensures Count("{" + s + "}", '{') == 1 && Count("{" + s + "}", '}') == 1
  {
    CountPlain(s);
    CountConcat("{", s, '{');
    CountConcat("{", s, '}');
    CountConcat(s, "}", '{');
    CountConcat(s, "}", '}');
    CountConcat("{" + s, "}", '{');
    CountConcat("{" + s, "}", '}');
  }

  /** Inside a variable the buffer grows by every raw segment until the closing brace. */
  lemma {:induction false} MergeInside(inner: seq<string>, last: string, rest: seq<string>, buffer: string)
    requires forall t <- inner :: t != "" && Unbraced(t)
    requires Unbraced(last)
    ensures Merge(inner + [last + "}"] + rest, 1, buffer) ==
            Prepend(buffer + "/" + Join(inner + [last + "}"], '/'), Merge(rest, 0, ""))
    decreases |inner|
  {
    var raw := inner + [last + "}"] + rest;
    if inner == [] {
      assert raw == [last + "}"] + rest;
      CountBraced(last);
    } else {
      assert raw[0] == inner[0] && raw[1..] == inner[1..] + [last + "}"] + rest;
      CountPlain(inner[0]);
      var text := buffer + "/" + inner[0];
      assert forall t <- inner[1..] :: t in inner;
      MergeInside(inner[1..], last, rest, text);
      JoinConcat([inner[0]], inner[1..] + [last + "}"], '/');
      assert [inner[0]] + (inner[1..] + [last + "}"]) == inner + [last + "}"];
      assert text + "/" + Join(inner[1..] + [last + "}"], '/') ==
             buffer + "/" + Join(inner + [last + "}"], '/');
    }
  }

  /** One raw segment that stands for itself: outside a variable, closing braces may outnumber the opening ones. */
  lemma {:induction false} MergeWhole(text: string, rest: seq<string>)
    requires text != "" && Count(text, '{') <= Count(text, '}')
    ensures Merge([text] + rest, 0, "") == Prepend(text, Merge(rest, 0, ""))
  {
    assert ([text] + rest)[1..] == rest;
  }

  /** How a variable with several pieces falls apart at the slashes. */
  lemma {:induction false} SplitVariable(f: string, head: string, inner: seq<string>, last: string)
    requires '/' !in f && '/' !in head && AllFree(inner, '/') && '/' !in last
    ensures var first, tail := "{" + f + "=" + head, inner + [last + "}"];
            var text := "{" + f + "=" + Join([head] + inner + [last], '/') + "}";
            text == Join([first] + tail, '/') && Split(text, '/') == [first] + tail
  {
    hide Split;
    var first, tail := "{" + f + "=" + head, inner + [last + "}"];
    assert [head] + inner + [last] == [head] + (inner + [last]);
    JoinConcat([head], inner + [last], '/');
    JoinExtendLast(inner + [last], "}", '/');
    assert (inner + [last])[..|inner|] + [last + "}"] == tail;
    JoinConcat([first], tail, '/');
    SplitOfJoin([first] + tail, '/');
  }

  /** A variable whose pattern has several pieces is split apart and put together again. */
  lemma {:induction false} MergeVariable(f: string, head: string, inner: seq<string>, last: string, rest: seq<string>)
    requires '/' !in f && Unbraced(f) && '/' !in head && Unbraced(head) && '/' !in last && Unbraced(last)
    requires AllFree(inner, '/') && forall t <- inner :: t != "" && Unbraced(t)
    ensures var text := "{" + f + "=" + Join([head] + inner + [last], '/') + "}";
            Merge(Split(text, '/') + rest, 0, "") == Prepend(text, Merge(rest, 0, ""))
  {
    var first, tail := "{" + f + "=" + head, inner + [last + "}"];
    SplitVariable(f, head, inner, last);
    CountBraced(f + "=" + head);
    assert first == "{" + (f + "=" + head);
    var raw := [first] + tail + rest;
    assert raw[0] == first && raw[1..] == inner + [last + "}"] + rest;
    assert "" + first == first;
    MergeInside(inner, last, rest, first);
    JoinConcat([first], tail, '/');
    assert first + "/" + Join(tail, '/') == Join([first] + tail, '/');
  }

  lemma {:induction false} MergeFull(f: string, texts: seq<string>, rest: seq<string>)
    requires '/' !in f && Unbraced(f)
    requires texts != [] && AllFree(texts, '/') && forall t <- texts :: t != "" && Unbraced(t)
    ensures var text := "{" + f + "=" + Join(texts, '/') + "}";
            Merge(Split(text, '/') + rest, 0, "") == Prepend(text, Merge(rest, 0, ""))
  {
    var n := |texts|;
    assert texts[0] in texts && texts[n - 1] in texts;
    if n == 1 {
      var s := f + "=" + texts[0];
      assert "{" + f + "=" + Join(texts, '/') + "}" == "{" + s + "}";
      SplitFree("{" + s + "}", '/');
      CountBraced(s);
      MergeWhole("{" + s + "}", rest);
    } else {
      var inner := texts[1..n - 1];
      assert texts == [texts[0]] + inner + [texts[n - 1]];
      forall t | t in inner ensures '/' !in t && t != "" && Unbraced(t) { assert t in texts; }
      MergeVariable(f, texts[0], inner, texts[n - 1], rest);
    }
  }

  lemma {:induction false} MergeText(text: string, segment: Segment, rest: seq<string>)
    requires SegmentOk(segment) && Spells(text, segment)
    ensures Merge(Split(text, '/') + rest, 0, "") == Prepend(text, Merge(rest, 0, ""))
  {
    match segment
    case Single(piece) =>
      PieceTextPlain(piece);
      SplitFree(text, '/');
      CountPlain(text);
      MergeWhole(text, rest);
    case Variable(f, pieces) =>
      PieceTextsPlain(pieces);
      if text == "{" + f + "}" {
        SplitFree(text, '/');
        CountBraced(f);
        MergeWhole(text, rest);
      } else {
        MergeFull(f, PieceTexts(pieces), rest);
      }
  }

  /** The merge undoes the split: every printed segment comes back whole, none is lost. */
  lemma {:induction false} MergeUndoesSplit(texts: seq<string>, segments: seq<Segment>)
    requires SpellsAll(texts, segments)
    ensures Merge(Split(Join(texts, '/'), '/'), 0, "") == Some(texts)
  {
    if texts == [] {
      assert Split("", '/')[1..] == [];
    } else if |texts| == 1 {
      assert Split(texts[0], '/') + [] == Split(texts[0], '/');
      MergeText(texts[0], segments[0], []);
      assert [texts[0]] + [] == texts;
    } else {
      SplitConcat(texts[0], '/', Join(texts[1..], '/'));
      MergeText(texts[0], segments[0], Split(Join(texts[1..], '/'), '/'));
      MergeUndoesSplit(texts[1..], segments[1..]);
      assert [texts[0]] + texts[1..] == texts;
    }
  }

  // ----- the round trip -----

  lemma {:induction false} VariablePartsSpelled(text: string, f: string, pieces: seq<Piece>)
    requires SegmentOk(Variable(f, pieces)) && Spells(text, Variable(f, pieces))
    ensures IsBraced(text)
    ensures var (name, pattern) := VariableParts(text[1..|text| - 1]);
            name == f && pattern == Join(PieceTexts(pieces), '/')
  {
    var content, pattern := text[1..|text| - 1], Join(PieceTexts(pieces), '/');
    assert |"{" + f + "=" + pattern + "}"| > |"{" + f + "}"|;
    if text == "{" + f + "}" {
      assert content == f;
      assert PieceTexts([Wildcard]) == ["*"];
    } else {
      assert content == f + ['='] + pattern;
      FirstIndexAt(f, '=', pattern);
      assert content[..|f|] == f && content[|f| + 1..] == pattern;
    }
  }

  lemma ClassifySpelled(text: string, segment: Segment)
    requires SegmentOk(segment) && Spells(text, segment)
    ensures Classify(text) == segment
  {
    match segment
    case Single(piece) =>
      PieceTextPlain(piece);
    case Variable(f, pieces) =>
      PieceTextsPlain(pieces);
      VariablePartsSpelled(text, f, pieces);
      SplitOfJoin(PieceTexts(pieces), '/');
  }

  lemma {:induction false} ClassifySpelledAll(texts: seq<string>, segments: seq<Segment>)
    requires SpellsAll(texts, segments)
    ensures ClassifyAll(texts) == segments
  {
    if texts != [] {
      ClassifySpelled(texts[0], segments[0]);
      ClassifySpelledAll(texts[1..], segments[1..]);
    }
  }

  lemma {:induction false} CutRendered(texts: seq<string>, verb: Option<string>)
    requires ColonRule(texts, verb)
    ensures CutVerb(StripSlash(Render(texts, verb))) == (Join(texts, '/'), verb)
  {
    hide Join, LastIndex;
    var body := Join(texts, '/');
    var stripped := StripSlash(Render(texts, verb));
    assert stripped == body + VerbSuffix(verb);
    match verb
    case None =>
      assert stripped == body;
    case Some(v) =>
      assert stripped == body + [':'] + v;
      LastIndexAt(body, ':', v);
      assert stripped[..|body|] == body && stripped[|body| + 1..] == v;
  }

  /** Reading back a printed template gives the template exactly when its last colon introduces its verb. */
  lemma ParseRender(texts: seq<string>, segments: seq<Segment>, verb: Option<string>)
    requires SpellsAll(texts, segments)
    ensures Parse(Render(texts, verb)) == Some(Template(segments, verb)) <==> ColonRule(texts, verb)
  {
    hide Join, Merge, ClassifyAll, SpellsAll, LastIndex, Split;
    if ColonRule(texts, verb) {
      CutRendered(texts, verb);
      MergeUndoesSplit(texts, segments);
      ClassifySpelledAll(texts, segments);
    } else {
      var stripped := StripSlash(Render(texts, verb));
      assert stripped == Join(texts, '/') + VerbSuffix(verb);
      var cut := CutVerb(stripped).1;
      assert cut.Some? ==> ':' !in cut.value;
      assert verb.None? ==> cut.Some?;
    }
  }

  // ----- what the brace merge keeps, for every text -----

  /** The brace depth after the raw segments; None where the unsigned depth underflows. */
  function FinalDepth(raw: seq<string>, depth: nat): Option<nat>
  {
    if raw == [] then Some(depth)
    else
      var opens, closes := Count(raw[0], '{'), Count(raw[0], '}');
      if depth > 0 then
        if depth + opens < closes then None else FinalDepth(raw[1..], depth + opens - closes)
      else FinalDepth(raw[1..], if opens > closes then opens - closes else 0)
  }

  /** The merged segments, taken apart at the slashes again. */
  function Reopened(texts: seq<string>): seq<string>
  {
    if texts == [] then [] else Split(texts[0], '/') + Reopened(texts[1..])
  }

  /** What the buffer holds, then the raw segments that are not empty. */
  function Held(raw: seq<string>, depth: nat, buffer: string): seq<string>
  {
    (if depth == 0 then [] else Split(buffer, '/')) + NonEmpty(raw)
  }

  /** No result without a final depth; otherwise a prefix of what is held, and all of it at depth zero. */
  predicate Keeps(merged: Option<seq<string>>, final: Option<nat>, held: seq<string>)
  {
    && (merged.None? <==> final.None?)
    && (merged.Some? ==>
          && Reopened(merged.value) <= held
          && (Reopened(merged.value) == held <==> final == Some(0)))
  }

  lemma {:induction false} KeepsPrepend(text: string, merged: Option<seq<string>>, final: Option<nat>,
      held: seq<string>)
    requires Keeps(merged, final, held)
    ensures Keeps(Prepend(text, merged), final, Split(text, '/') + held)
  {
    if merged.Some? {
      var all := [text] + merged.value;
      assert all[0] == text && all[1..] == merged.value;
      var a, b := Split(text, '/'), Reopened(merged.value);
      assert a + held == a + b + held[|b|..];
      assert (a + b)[|a|..] == b && (a + held)[|a|..] == held;
    }
  }

  lemma KeepsNothing(depth: nat, buffer: string)
    ensures Keeps(Some([]), Some(depth), Held([], depth, buffer))
  {
  }

  lemma {:induction false} HeldFirst(first: string, rest: seq<string>, depth: nat, buffer: string)
    requires '/' !in first && (depth == 0 ==> buffer == "")
    ensures first == "" ==> Held([first] + rest, depth, buffer) == Held(rest, depth, buffer)
    ensures first != "" && depth > 0 ==>
              Held([first] + rest, depth, buffer) == Split(buffer + "/" + first, '/') + NonEmpty(rest)
    ensures first != "" && depth == 0 ==>
              Held([first] + rest, depth, buffer) == Split(first, '/') + NonEmpty(rest)
  {
    var raw := [first] + rest;
    assert raw[0] == first && raw[1..] == rest;
    SplitFree(first, '/');
    SplitConcat(buffer, '/', first);
    assert buffer + "/" + first == buffer + ['/'] + first;
    if first != "" && depth > 0 {
      Regroup(Split(buffer, '/'), [first], NonEmpty(rest), NonEmpty(raw));
    }
  }

  /**
   * The merge fails exactly where the depth underflows. Otherwise the merged segments hold the raw segments that
   * are not empty, in order, and all of them exactly when the braces are closed at the end.
   */
  lemma {:induction false} MergeKeeps(raw: seq<string>, depth: nat, buffer: string)
    requires AllFree(raw, '/') && (depth == 0 ==> buffer == "")
    ensures Keeps(Merge(raw, depth, buffer), FinalDepth(raw, depth), Held(raw, depth, buffer))
    decreases |raw|
  {
    hide Count, Split, Reopened, Keeps, Held;
    if raw == [] {
      KeepsNothing(depth, buffer);
    } else {
      var first, rest := raw[0], raw[1..];
      assert raw == [first] + rest && first in raw && forall t <- rest :: t in raw;
      HeldFirst(first, rest, depth, buffer);
      var opens, closes := Count(first, '{'), Count(first, '}');
      if first == "" {
        CountPlain(first);
        MergeKeeps(rest, depth, buffer);
      } else if depth > 0 {
        var text := buffer + "/" + first;
        if depth + opens == closes {
          MergeKeeps(rest, 0, "");
          HeldPlain(rest);
          KeepsPrepend(text, Merge(rest, 0, ""), FinalDepth(rest, 0), NonEmpty(rest));
        } else if depth + opens > closes {
          MergeKeeps(rest, depth + opens - closes, text);
          HeldOpen(rest, depth + opens - closes, text);
        } else {
          KeepsUnderflow(Held(raw, depth, buffer));
        }
      } else if opens > closes {
        assert "" + first == first;
        MergeKeeps(rest, opens - closes, first);
        HeldOpen(rest, opens - closes, first);
      } else {
        MergeKeeps(rest, 0, "");
        HeldPlain(rest);
        KeepsPrepend(first, Merge(rest, 0, ""), FinalDepth(rest, 0), NonEmpty(rest));
      }
    }
  }

  lemma {:induction false} HeldPlain(raw: seq<string>)
    ensures Held(raw, 0, "") == NonEmpty(raw)
  {
    assert [] + NonEmpty(raw) == NonEmpty(raw);
  }

  lemma {:induction false} HeldOpen(raw: seq<string>, depth: nat, buffer: string)
    requires depth > 0
    ensures Held(raw, depth, buffer) == Split(buffer, '/') + NonEmpty(raw)
  {
  }

  lemma KeepsUnderflow(held: seq<string>)
    ensures Keeps(None, None, held)
  {
  }

  // ----- braces that are never closed too early -----

  /** How often a character occurs in all texts together. */
  function Total(texts: seq<string>, c: char): nat
  {
    if texts == [] then 0 else Count(texts[0], c) + Total(texts[1..], c)
  }

  /** After no raw segment have more braces been closed than opened, counted from depth open ones. */
  ghost predicate NeverEarly(raw: seq<string>, depth: nat)
  {
    forall i :: 0 <= i <= |raw| ==> Total(raw[..i], '}') <= depth + Total(raw[..i], '{')
  }

  lemma NeverEarlyRest(raw: seq<string>, depth: nat)
    requires raw != [] && NeverEarly(raw, depth)
    ensures Count(raw[0], '}') <= depth + Count(raw[0], '{')
    ensures NeverEarly(raw[1..], depth + Count(raw[0], '{') - Count(raw[0], '}'))
  {
    hide Count;
    assert raw[..1][1..] == [];
    assert Total(raw[..1], '}') <= depth + Total(raw[..1], '{');
    var rest := raw[1..];
    forall i | 0 <= i <= |rest|
      ensures Total(rest[..i], '}') <=
              depth + Count(raw[0], '{') - Count(raw[0], '}') + Total(rest[..i], '{')
    {
      assert raw[..i + 1][0] == raw[0] && raw[..i + 1][1..] == rest[..i];
      assert Total(raw[..i + 1], '}') <= depth + Total(raw[..i + 1], '{');
    }
  }

  lemma {:induction false} DepthCounts(raw: seq<string>, depth: nat)
    requires NeverEarly(raw, depth)
    ensures Total(raw, '}') <= depth + Total(raw, '{')
    ensures FinalDepth(raw, depth) == Some(depth + Total(raw, '{') - Total(raw, '}'))
    decreases |raw|
  {
    hide Count, NeverEarly;
    if raw != [] {
      NeverEarlyRest(raw, depth);
      DepthCounts(raw[1..], depth + Count(raw[0], '{') - Count(raw[0], '}'));
    }
  }

  /** Counting in the parts is counting in the text. */
  lemma {:induction false} TotalOfSplit(s: string, c: char)
    requires c != '/'
    ensures Total(Split(s, '/'), c) == Count(s, c)
    decreases |s|
  {
    if s != "" {
      TotalOfSplit(s[1..], c);
      var rest := Split(s[1..], '/');
      if s[0] == '/' {
        assert ([""] + rest)[1..] == rest;
      } else {
        var parts := [[s[0]] + rest[0]] + rest[1..];
        assert parts[1..] == rest[1..];
        assert ([s[0]] + rest[0])[1..] == rest[0];
      }
    }
  }

  /**
   * A path in which no brace is closed early, counted up to each slash, is merged without underflow, and everything
   * in it is kept exactly when it opens as many braces as it closes.
   */
  lemma {:induction false} BalancedKeeps(path: string)
    requires NeverEarly(Split(path, '/'), 0)
    ensures var raw := Split(path, '/');
            var merged := Merge(raw, 0, "");
            merged.Some? && (Reopened(merged.value) == NonEmpty(raw) <==> Count(path, '{') == Count(path, '}'))
  {
    hide Split, Merge, Reopened, Count, NeverEarly, Held, FinalDepth;
    var raw := Split(path, '/');
    DepthCounts(raw, 0);
    TotalOfSplit(path, '{');
    TotalOfSplit(path, '}');
    JoinOfSplit(path, '/');
    MergeKeeps(raw, 0, "");
    HeldPlain(raw);
  }

  // ----- the braces of a printed template -----

  lemma {:induction false} ReopenedJoin(texts: seq<string>)
    requires texts != []
    ensures Reopened(texts) == Split(Join(texts, '/'), '/')
  {
    hide Split;
    if |texts| == 1 {
      ReopenedNothing();
      assert texts[1..] == [];
    } else {
      ReopenedJoin(texts[1..]);
      SplitConcat(texts[0], '/', Join(texts[1..], '/'));
    }
  }

  lemma ReopenedNothing()
    ensures Reopened([]) == []
  {
  }

  /** A printed segment falls apart into parts that are not empty. */
  lemma {:induction false} SpelledParts(text: string, segment: Segment)
    requires SegmentOk(segment) && Spells(text, segment)
    ensures "" !in Split(text, '/')
  {
    hide Split, Join, PieceTexts;
    match segment
    case Single(piece) =>
      PieceTextPlain(piece);
      SplitFree(text, '/');
    case Variable(f, pieces) =>
      PieceTextsPlain(pieces);
      if text == "{" + f + "}" {
        SplitFree(text, '/');
      } else {
        PatternParts(f, PieceTexts(pieces));
      }
  }

  lemma {:induction false} PatternParts(f: string, texts: seq<string>)
    requires '/' !in f && texts != [] && AllFree(texts, '/') && forall t <- texts :: t != ""
    ensures "" !in Split("{" + f + "=" + Join(texts, '/') + "}", '/')
  {
    hide Split;
    var n := |texts|;
    assert texts[0] in texts && texts[n - 1] in texts;
    if n == 1 {
      SplitFree("{" + f + "=" + texts[0] + "}", '/');
    } else {
      var inner := texts[1..n - 1];
      assert texts == [texts[0]] + inner + [texts[n - 1]];
      assert forall t <- inner :: t in texts;
      SplitVariable(f, texts[0], inner, texts[n - 1]);
    }
  }

  lemma {:induction false} ReopenedNonEmpty(texts: seq<string>, segments: seq<Segment>)
    requires SpellsAll(texts, segments)
    ensures "" !in Reopened(texts)
  {
    hide Split, Spells, SegmentOk;
    if texts != [] {
      SpelledParts(texts[0], segments[0]);
      ReopenedNonEmpty(texts[1..], segments[1..]);
    }
  }

  /** On a printed template the brace depth never underflows and is back at zero at the end. */
  lemma {:induction false} SpelledClosed(texts: seq<string>, segments: seq<Segment>)
    requires SpellsAll(texts, segments)
    ensures FinalDepth(Split(Join(texts, '/'), '/'), 0) == Some(0)
  {
    hide Split, Merge, Reopened, SpellsAll, Held, FinalDepth;
    var raw := Split(Join(texts, '/'), '/');
    if texts == [] {
      NothingClosed();
    } else {
      MergeUndoesSplit(texts, segments);
      JoinOfSplit(Join(texts, '/'), '/');
      MergeKeeps(raw, 0, "");
      HeldPlain(raw);
      ReopenedJoin(texts);
      ReopenedNonEmpty(texts, segments);
      NonEmptySame(raw);
    }
  }

  lemma NothingClosed()
    ensures FinalDepth(Split(Join([], '/'), '/'), 0) == Some(0)
  {
    assert Split("", '/')[1..] == [];
    CountPlain("");
  }
}
