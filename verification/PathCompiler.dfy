/** The template compiler: cut the verb, split on '/', merge what braces hold together, emit bytecode. */
module PathCompiler {
  import opened Text
  import opened PathTemplate

  // ----- from template text to syntax -----

  /** The verb is whatever follows the last colon, wherever that colon stands. */
  function CutVerb(s: string): (string, Option<string>)
  {
    var i := LastIndex(s, ':');
    if i.Some? then (s[..i.value], Some(s[i.value + 1..])) else (s, None)
  }

  /** The raw segments that remain, with the current brace depth and buffer. None: the unsigned depth underflows. */
  function Merge(raw: seq<string>, depth: nat, buffer: string): Option<seq<string>>
  {
    if raw == [] then Some([])
    else if raw[0] == "" then Merge(raw[1..], depth, buffer)
    else
      var opens, closes := Count(raw[0], '{'), Count(raw[0], '}');
      if depth > 0 then
        var text := buffer + "/" + raw[0];
        if depth + opens < closes then None
        else if depth + opens == closes then Prepend(text, Merge(raw[1..], 0, ""))
        else Merge(raw[1..], depth + opens - closes, text)
      else if opens > closes then Merge(raw[1..], opens - closes, buffer + raw[0])
      else Prepend(raw[0], Merge(raw[1..], 0, buffer))
  }

  function Prepend(text: string, rest: Option<seq<string>>): Option<seq<string>>
  {
    if rest.None? then None else Some([text] + rest.value)
  }

  function Chain(texts: seq<string>, rest: Option<seq<string>>): (r: Option<seq<string>>)
    ensures texts == [] ==> r == rest
    ensures rest == Some([]) ==> r == Some(texts)
  {
    if rest.None? then None
    else
      assert texts == [] ==> texts + rest.value == rest.value;
      assert rest.value == [] ==> texts + rest.value == texts;
      Some(texts + rest.value)
  }

  lemma ChainPrepend(texts: seq<string>, text: string, rest: Option<seq<string>>)
    ensures Chain(texts, Prepend(text, rest)) == Chain(texts + [text], rest)
  {
    if rest.Some? { assert texts + ([text] + rest.value) == texts + [text] + rest.value; }
  }

  function ClassifyPiece(text: string): Piece
  {
    if text == "*" then Wildcard else if text == "**" then DeepWildcard else Literal(text)
  }

  function ClassifyPieces(texts: seq<string>): (pieces: seq<Piece>)
    ensures |pieces| == |texts|
  {
    if texts == [] then [] else [ClassifyPiece(texts[0])] + ClassifyPieces(texts[1..])
  }

  predicate IsBraced(text: string)
  {
    |text| >= 2 && text[0] == '{' && text[|text| - 1] == '}'
  }

  /** Name and pattern of a braced segment; a missing pattern means "*". */
  function VariableParts(content: string): (string, string)
  {
    var i := FirstIndex(content, '=');
    if i.Some? then (content[..i.value], content[i.value + 1..]) else (content, "*")
  }

  function Classify(text: string): Segment
  {
    if text != "*" && text != "**" && IsBraced(text) then
      var (name, pattern) := VariableParts(text[1..|text| - 1]);
      Variable(name, ClassifyPieces(Split(pattern, '/')))
    else Single(ClassifyPiece(text))
  }

  function ClassifyAll(texts: seq<string>): seq<Segment>
  {
    if texts == [] then [] else [Classify(texts[0])] + ClassifyAll(texts[1..])
  }

  /** The template a text stands for, for every text on which the brace depth does not underflow. */
  function Parse(text: string): Option<Template>
  {
    var (path, verb) := CutVerb(StripSlash(text));
    var merged := Merge(Split(path, '/'), 0, "");
    if merged.None? then None else Some(Template(ClassifyAll(merged.value), verb))
  }

  // ----- from syntax to bytecode -----

  function PieceOp(piece: Piece, k: nat): Op
  {
    match piece
    case Literal(_) => Op(LitPush, k)
    case Wildcard => Op(Push, 0)
    case DeepWildcard => Op(PushM, 0)
  }

  function PieceLiteral(piece: Piece): seq<string>
  {
    if piece.Literal? then [piece.text] else []
  }

  /** The literal pool of a list of pieces. */
  function Literals(pieces: seq<Piece>): seq<string>
  {
    if pieces == [] then [] else PieceLiteral(pieces[0]) + Literals(pieces[1..])
  }

  /** Code for pieces whose first literal gets pool index k. */
  function PieceOps(pieces: seq<Piece>, k: nat): seq<Op>
  {
    if pieces == [] then []
    else [PieceOp(pieces[0], k)] + PieceOps(pieces[1..], k + |PieceLiteral(pieces[0])|)
  }

  /** What follows a variable's pushes: join them when there are several, then capture variable j. */
  function CaptureOps(n: nat, j: nat): seq<Op>
  {
    (if n > 1 then [Op(ConcatN, n)] else []) + [Op(Capture, j)]
  }

  function SegmentOps(segment: Segment, k: nat, j: nat): seq<Op>
  {
    match segment
    case Single(piece) => [PieceOp(piece, k)]
    case Variable(_, pieces) => PieceOps(pieces, k) + CaptureOps(|pieces|, j)
  }

  /** Code for segments whose first literal gets index k and whose first variable gets index j. */
  function SegmentsOps(segments: seq<Segment>, k: nat, j: nat): seq<Op>
  {
    if segments == [] then []
    else
      SegmentOps(segments[0], k, j) +
      SegmentsOps(segments[1..], k + |Literals(SegmentPieces(segments[0]))|, j + |SegmentVars(segments[0])|)
  }

  function Generate(t: Template): Pattern
  {
    var pieces := Pieces(t.segments);
    Pattern(SegmentsOps(t.segments, 0, 0), Literals(pieces), Vars(t.segments), |pieces|, 0, t.verb)
  }

  lemma {:induction false} LiteralsConcat(a: seq<Piece>, b: seq<Piece>)
    ensures Literals(a + b) == Literals(a) + Literals(b)
  {
    if a == [] {
      assert a + b == b;
    } else {
      assert (a + b)[1..] == a[1..] + b;
      LiteralsConcat(a[1..], b);
    }
  }

  lemma LiteralsOne(piece: Piece)
    ensures Literals([piece]) == PieceLiteral(piece)
  {
    assert Literals([piece]) == PieceLiteral(piece) + Literals([]);
  }

  lemma {:induction false} ClassifyRest(texts: seq<string>)
    requires texts != []
    ensures var segments := ClassifyAll(texts);
            segments != [] && segments[0] == Classify(texts[0]) && segments[1..] == ClassifyAll(texts[1..])
  {
  }

  /** The code, pieces and variables of a template are those of its first segment, then those of the rest. */
  lemma {:induction false} Unfold(segments: seq<Segment>, k: nat, j: nat, k': nat, j': nat)
    requires segments != []
    requires k' == k + |Literals(SegmentPieces(segments[0]))| && j' == j + |SegmentVars(segments[0])|
    ensures SegmentsOps(segments, k, j) == SegmentOps(segments[0], k, j) + SegmentsOps(segments[1..], k', j')
    ensures Pieces(segments) == SegmentPieces(segments[0]) + Pieces(segments[1..])
    ensures Vars(segments) == SegmentVars(segments[0]) + Vars(segments[1..])
  {
    hide SegmentOps, PieceOps, Literals, SegmentPieces, SegmentVars, PieceLiteral;
  }

  lemma {:induction false} LiteralsRest(segments: seq<Segment>)
    requires segments != []
    ensures Literals(Pieces(segments)) == Literals(SegmentPieces(segments[0])) + Literals(Pieces(segments[1..]))
  {
    LiteralsConcat(SegmentPieces(segments[0]), Pieces(segments[1..]));
  }

  /** Emitting the first segment and then the rest is emitting them all. */
  lemma {:induction false} EmitStep(segments: seq<Segment>, ops: seq<Op>, pool: seq<string>, vars: seq<string>,
      ops': seq<Op>, pool': seq<string>, vars': seq<string>)
    requires segments != []
    requires ops' == ops + SegmentOps(segments[0], |pool|, |vars|)
    requires pool' == pool + Literals(SegmentPieces(segments[0]))
    requires vars' == vars + SegmentVars(segments[0])
    ensures ops' + SegmentsOps(segments[1..], |pool'|, |vars'|) == ops + SegmentsOps(segments, |pool|, |vars|)
    ensures pool' + Literals(Pieces(segments[1..])) == pool + Literals(Pieces(segments))
    ensures vars' + Vars(segments[1..]) == vars + Vars(segments)
  {
    hide *;
    var first, rest := segments[0], segments[1..];
    LiteralsRest(segments);
    Unfold(segments, |pool|, |vars|, |pool'|, |vars'|);
    var code := SegmentsOps(segments, |pool|, |vars|);
    Regroup(ops, SegmentOps(first, |pool|, |vars|), SegmentsOps(rest, |pool'|, |vars'|), code);
    Regroup(pool, Literals(SegmentPieces(first)), Literals(Pieces(rest)), Literals(Pieces(segments)));
    Regroup(vars, SegmentVars(first), Vars(rest), Vars(segments));
  }

  // ----- the compiler -----

  /** The loop over raw segments, with its buffer and its unsigned brace depth. */
  method MergeSegments(raw: seq<string>) returns (r: Option<seq<string>>)
    ensures r == Merge(raw, 0, "")
  {
    var merged: seq<string> := [];
    var buffer := "";
    var braceDepth: nat := 0;
    assert raw[0..] == raw;
    for i := 0 to |raw|
      invariant Merge(raw, 0, "") == Chain(merged, Merge(raw[i..], braceDepth, buffer))
      invariant braceDepth == 0 ==> buffer == ""
    {
      var segment := raw[i];
      assert raw[i..][1..] == raw[i + 1..];
      ChainPrepend(merged, segment, Merge(raw[i + 1..], 0, buffer));
      ChainPrepend(merged, buffer + "/" + segment, Merge(raw[i + 1..], 0, ""));
      if segment == "" {
        continue;
      }
      var openCount, closeCount := Count(segment, '{'), Count(segment, '}');
      if braceDepth > 0 {
        buffer := buffer + "/" + segment;
        braceDepth := braceDepth + openCount;
        if braceDepth < closeCount {
          return None;
        }
        braceDepth := braceDepth - closeCount;
        if braceDepth == 0 {
          merged := merged + [buffer];
          buffer := "";
        }
      } else if openCount > closeCount {
        braceDepth := openCount - closeCount;
        buffer := buffer + segment;
      } else {
        merged := merged + [segment];
      }
    }
    r := Some(merged);
  }

  /** The loop over the parts of a variable's pattern. */
  method EmitPieces(parts: seq<string>, ops0: seq<Op>, pool0: seq<string>)
    returns (ops: seq<Op>, pool: seq<string>, pushes: nat)
    ensures ops == ops0 + PieceOps(ClassifyPieces(parts), |pool0|)
    ensures pool == pool0 + Literals(ClassifyPieces(parts))
    ensures pushes == |parts|
  {
    ops, pool, pushes := ops0, pool0, 0;
    ghost var pieces, pending := ClassifyPieces(parts), ClassifyPieces(parts);
    assert parts[0..] == parts;
    for i := 0 to |parts|
      invariant pending == ClassifyPieces(parts[i..])
      invariant ops + PieceOps(pending, |pool|) == ops0 + PieceOps(pieces, |pool0|)
      invariant pool + Literals(pending) == pool0 + Literals(pieces)
      invariant pushes == i
    {
      var part := parts[i];
      assert parts[i..][1..] == parts[i + 1..];
      ghost var ops1, pool1, piece := ops, pool, ClassifyPiece(part);
      if part == "*" {
        ops := ops + [Op(Push, 0)];
      } else if part == "**" {
        ops := ops + [Op(PushM, 0)];
      } else {
        pool := pool + [part];
        ops := ops + [Op(LitPush, |pool| - 1)];
      }
      pushes := pushes + 1;
      assert pool == pool1 + PieceLiteral(piece);
      Regroup(ops1, [PieceOp(piece, |pool1|)], PieceOps(pending[1..], |pool|), PieceOps(pending, |pool1|));
      Regroup(pool1, PieceLiteral(piece), Literals(pending[1..]), Literals(pending));
      pending := pending[1..];
    }
  }

  /** A braced segment: the pushes of its pattern, their concatenation when there are several, and the capture. */
  method EmitVariable(segment: string, ops0: seq<Op>, pool0: seq<string>, vars0: seq<string>)
    returns (ops: seq<Op>, pool: seq<string>, vars: seq<string>, pushes: nat)
    requires IsBraced(segment)
    ensures ops == ops0 + SegmentOps(Classify(segment), |pool0|, |vars0|)
    ensures pool == pool0 + Literals(SegmentPieces(Classify(segment)))
    ensures vars == vars0 + SegmentVars(Classify(segment))
    ensures pushes == |SegmentPieces(Classify(segment))|
  {
    hide PieceOps, Literals, ClassifyPieces, Split, VariableParts;
    var (varName, pattern) := VariableParts(segment[1..|segment| - 1]);
    var parts := Split(pattern, '/');
    ops, pool, pushes := EmitPieces(parts, ops0, pool0);
    if pushes > 1 {
      ops := ops + [Op(ConcatN, pushes)];
    }
    vars := vars0 + [varName];
    ops := ops + [Op(Capture, |vars| - 1)];
    ghost var code := PieceOps(ClassifyPieces(parts), |pool0|);
    Regroup(ops0, code, CaptureOps(pushes, |vars0|), SegmentOps(Classify(segment), |pool0|, |vars0|));
    assert ops == ops0 + code + CaptureOps(pushes, |vars0|);
  }

  /** One merged segment: pushes onto the code, the literal pool and the variable table. */
  method EmitSegment(segment: string, ops0: seq<Op>, pool0: seq<string>, vars0: seq<string>)
    returns (ops: seq<Op>, pool: seq<string>, vars: seq<string>, pushes: nat)
    ensures ops == ops0 + SegmentOps(Classify(segment), |pool0|, |vars0|)
    ensures pool == pool0 + Literals(SegmentPieces(Classify(segment)))
    ensures vars == vars0 + SegmentVars(Classify(segment))
    ensures pushes == |SegmentPieces(Classify(segment))|
  {
    hide PieceOps, Literals, ClassifyPieces;
    ops, pool, vars, pushes := ops0, pool0, vars0, 1;
    LiteralsOne(ClassifyPiece(segment));
    if segment == "*" {
      ops := ops + [Op(Push, 0)];
    } else if segment == "**" {
      ops := ops + [Op(PushM, 0)];
    } else if IsBraced(segment) {
      ops, pool, vars, pushes := EmitVariable(segment, ops, pool, vars);
    } else {
      pool := pool + [segment];
      ops := ops + [Op(LitPush, |pool| - 1)];
    }
  }

  /** The loop over merged segments. */
  method EmitSegments(merged: seq<string>)
    returns (ops: seq<Op>, pool: seq<string>, vars: seq<string>, stackSize: nat)
    ensures ops == SegmentsOps(ClassifyAll(merged), 0, 0)
    ensures pool == Literals(Pieces(ClassifyAll(merged)))
    ensures vars == Vars(ClassifyAll(merged))
    ensures stackSize == |Pieces(ClassifyAll(merged))|
  {
    ops, pool, vars, stackSize := [], [], [], 0;
    ghost var all, pending := ClassifyAll(merged), ClassifyAll(merged);
    assert merged[0..] == merged;
    for i := 0 to |merged|
      invariant pending == ClassifyAll(merged[i..])
      invariant ops + SegmentsOps(pending, |pool|, |vars|) == SegmentsOps(all, 0, 0)
      invariant pool + Literals(Pieces(pending)) == Literals(Pieces(all))
      invariant vars + Vars(pending) == Vars(all)
      invariant stackSize + |Pieces(pending)| == |Pieces(all)|
    {
      assert merged[i..][1..] == merged[i + 1..];
      ClassifyRest(merged[i..]);
      ghost var ops0, pool0, vars0 := ops, pool, vars;
      var pushes: nat;
      ops, pool, vars, pushes := EmitSegment(merged[i], ops, pool, vars);
      stackSize := stackSize + pushes;
      EmitStep(pending, ops0, pool0, vars0, ops, pool, vars);
      pending := pending[1..];
    }
  }

  /** `compile`: for every template text, the code of the syntax it stands for. */
  method Compile(template: string) returns (r: Option<Pattern>)
    ensures r.None? <==> Parse(template).None?
    ensures r.Some? ==> r.value == Generate(Parse(template).value)
  {
    var text := StripSlash(template);
    var (path, verb) := CutVerb(text);
    var merged := MergeSegments(Split(path, '/'));
    if merged.None? {
      return None;
    }
    var ops, pool, vars, stackSize := EmitSegments(merged.value);
    r := Some(Pattern(ops, pool, vars, stackSize, 0, verb));
  }
}
