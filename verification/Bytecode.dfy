/** Stack safety of bytecode, and a run taken apart into consuming components and replaying values. */
module Bytecode {
  import opened Text
  import opened PathTemplate
  import opened PathCompiler
  import opened PatternMatcher

  // ----- the static stack check -----

  /** The stack depth after one op, or None when it could underflow or point outside its table. */
  function CheckOp(p: Pattern, op: Op, depth: nat): Option<nat>
  {
    match op.code
    case Nop => Some(depth)
    case Push => Some(depth + 1)
    case LitPush => if InRange(op.operand, |p.pool|) then Some(depth + 1) else None
    case PushM => Some(depth + 1)
    case ConcatN => if 2 <= op.operand <= depth then Some(depth - op.operand + 1) else None
    case Capture => if depth >= 1 && InRange(op.operand, |p.vars|) then Some(depth - 1) else None
  }

  function CheckOps(p: Pattern, ops: seq<Op>, depth: nat): Option<nat>
  {
    if ops == [] then Some(depth)
    else
      var next := CheckOp(p, ops[0], depth);
      if next.None? then None else CheckOps(p, ops[1..], next.value)
  }

  predicate StackSafe(p: Pattern)
  {
    CheckOps(p, p.ops, 0).Some?
  }

  /** The operands of the captures, in order. */
  function CaptureOrder(ops: seq<Op>): seq<int>
  {
    if ops == [] then []
    else (if ops[0].code == Capture then [ops[0].operand] else []) + CaptureOrder(ops[1..])
  }

  // ----- what a run consumes -----

  predicate Consumes(op: Op)
  {
    op.code == Push || op.code == LitPush || op.code == PushM
  }

  function OpPiece(p: Pattern, op: Op): seq<Piece>
  {
    match op.code
    case Push => [Wildcard]
    case LitPush => [Literal(if InRange(op.operand, |p.pool|) then p.pool[op.operand] else "")]
    case PushM => [DeepWildcard]
    case _ => []
  }

  /** The consuming ops, as pieces. */
  function Shape(p: Pattern, ops: seq<Op>): seq<Piece>
  {
    if ops == [] then [] else OpPiece(p, ops[0]) + Shape(p, ops[1..])
  }

  datatype Consumed = Consumed(slices: seq<seq<string>>, rest: seq<string>)

  /** How many of the remaining components a piece takes; `**` leaves exactly tail of them. */
  function Takes(piece: Piece, tail: nat, components: seq<string>): (n: Option<nat>)
    ensures n.Some? ==> n.value <= |components|
  {
    match piece
    case Wildcard => if components != [] then Some(1) else None
    case Literal(text) => if components != [] && components[0] == text then Some(1) else None
    case DeepWildcard => if tail <= |components| then Some(|components| - tail) else None
  }

  /** The single greedy pass of the matcher. */
  function Consume(pieces: seq<Piece>, tail: nat, components: seq<string>): (r: Option<Consumed>)
    ensures r.Some? ==> |r.value.slices| == |pieces|
    decreases |pieces|
  {
    if pieces == [] then Some(Consumed([], components))
    else
      var n := Takes(pieces[0], tail, components);
      if n.None? then None
      else
        var r := Consume(pieces[1..], tail, components[n.value..]);
        if r.None? then None
        else Some(Consumed([components[..n.value]] + r.value.slices, r.value.rest))
  }

  // ----- what a run does with the values -----

  datatype Store = Store(stack: seq<string>, captured: map<string, string>)

  function ReplayOp(p: Pattern, op: Op, value: string, s: Store): Store
  {
    if Consumes(op) then s.(stack := s.stack + [value])
    else if op.code == ConcatN && 0 <= op.operand <= |s.stack| then
      var i := |s.stack| - op.operand;
      s.(stack := s.stack[..i] + [Join(s.stack[i..], '/')])
    else if op.code == Capture && s.stack != [] then
      var top := |s.stack| - 1;
      Store(s.stack[..top],
            if InRange(op.operand, |p.vars|) then s.captured[p.vars[op.operand] := s.stack[top]] else s.captured)
    else s
  }

  /** Runs the data half of the code: each consuming op pushes the next value. */
  function Replay(p: Pattern, ops: seq<Op>, values: seq<string>, s: Store): Store
    requires |values| == |Shape(p, ops)|
    decreases |ops|
  {
    if ops == [] then s
    else if Consumes(ops[0]) then Replay(p, ops[1..], values[1..], ReplayOp(p, ops[0], values[0], s))
    else Replay(p, ops[1..], values, ReplayOp(p, ops[0], "", s))
  }

  function Joined(slices: seq<seq<string>>): (values: seq<string>)
    ensures |values| == |slices|
  {
    if slices == [] then [] else [Join(slices[0], '/')] + Joined(slices[1..])
  }

  // ----- simulation -----

  predicate IsMismatch(why: Stop)
  {
    why == OutOfComponents || why == LiteralDiffers || why == TailTooShort
  }

  lemma ConsumingStep(p: Pattern, components: seq<string>, op: Op, m: Machine)
    requires m.pos <= |components| && Consumes(op) && CheckOp(p, op, |m.stack|).Some?
    ensures var r := Step(p, components, op, m);
            var here := components[m.pos..];
            var n := Takes(OpPiece(p, op)[0], p.tailLen, here);
            match r
            case Stopped(why) => n.None? && IsMismatch(why)
            case Running(m') =>
              n.Some? && m' == Machine(m.stack + [Join(here[..n.value], '/')], m.pos + n.value, m.captured)
    ensures CheckOp(p, op, |m.stack|).value == |m.stack| + 1
  {
    var here := components[m.pos..];
    if m.pos < |components| { assert here[..1] == [components[m.pos]]; }
    if m.pos + p.tailLen <= |components| {
      assert here[..|here| - p.tailLen] == components[m.pos..|components| - p.tailLen];
    }
  }

  lemma StackStep(p: Pattern, components: seq<string>, op: Op, m: Machine)
    requires m.pos <= |components| && !Consumes(op) && CheckOp(p, op, |m.stack|).Some?
    ensures var s := ReplayOp(p, op, "", Store(m.stack, m.captured));
            && Step(p, components, op, m) == Running(Machine(s.stack, m.pos, s.captured))
            && CheckOp(p, op, |m.stack|).value == |s.stack|
  {
  }

  datatype Prediction = Prediction(store: Store, rest: seq<string>)

  /** Consume all components first, then replay the joined slices. */
  function Predict(p: Pattern, ops: seq<Op>, here: seq<string>, s: Store): Option<Prediction>
  {
    var c := Consume(Shape(p, ops), p.tailLen, here);
    if c.None? then None else Some(Prediction(Replay(p, ops, Joined(c.value.slices), s), c.value.rest))
  }

  lemma PredictConsuming(p: Pattern, ops: seq<Op>, here: seq<string>, s: Store)
    requires ops != [] && Consumes(ops[0])
    ensures var n := Takes(OpPiece(p, ops[0])[0], p.tailLen, here);
            Predict(p, ops, here, s) ==
            if n.None? then None
            else Predict(p, ops[1..], here[n.value..], s.(stack := s.stack + [Join(here[..n.value], '/')]))
  {
    assert Shape(p, ops)[0] == OpPiece(p, ops[0])[0] && Shape(p, ops)[1..] == Shape(p, ops[1..]);
    var n := Takes(OpPiece(p, ops[0])[0], p.tailLen, here);
    if n.Some? {
      var c := Consume(Shape(p, ops[1..]), p.tailLen, here[n.value..]);
      if c.Some? {
        var slices := [here[..n.value]] + c.value.slices;
        assert slices[1..] == c.value.slices;
        assert Joined(slices)[1..] == Joined(c.value.slices);
      }
    }
  }

  lemma PredictOther(p: Pattern, ops: seq<Op>, here: seq<string>, s: Store)
    requires ops != [] && !Consumes(ops[0])
    ensures Predict(p, ops, here, s) == Predict(p, ops[1..], here, ReplayOp(p, ops[0], "", s))
  {
    assert Shape(p, ops) == Shape(p, ops[1..]);
  }

  lemma PredictNothing(p: Pattern, here: seq<string>, s: Store)
    ensures Predict(p, [], here, s) == Some(Prediction(s, here))
  {
  }

  ghost predicate Agrees(r: Outcome, prediction: Option<Prediction>, components: seq<string>)
    requires r.Running? ==> r.machine.pos <= |components|
  {
    match r
    case Stopped(why) => prediction.None? && IsMismatch(why)
    case Running(m) => prediction == Some(Prediction(Store(m.stack, m.captured), components[m.pos..]))
  }

  /** A checked run only ever stops because the components do not fit, and otherwise is consume-then-replay. */
  lemma {:induction false} Simulate(p: Pattern, components: seq<string>, ops: seq<Op>, m: Machine)
    requires m.pos <= |components|
    requires CheckOps(p, ops, |m.stack|).Some?
    ensures Agrees(Run(p, components, ops, m),
                   Predict(p, ops, components[m.pos..], Store(m.stack, m.captured)), components)
    decreases |ops|
  {
    hide Predict, Step, CheckOp, Takes;
    var here, s := components[m.pos..], Store(m.stack, m.captured);
    if ops == [] {
      PredictNothing(p, here, s);
    } else {
      var op := ops[0];
      if Consumes(op) {
        ConsumingStep(p, components, op, m);
        PredictConsuming(p, ops, here, s);
        var n := Takes(OpPiece(p, op)[0], p.tailLen, here);
        if n.Some? {
          var m' := Machine(m.stack + [Join(here[..n.value], '/')], m.pos + n.value, m.captured);
          assert here[n.value..] == components[m'.pos..];
          Simulate(p, components, ops[1..], m');
        }
      } else {
        StackStep(p, components, op, m);
        PredictOther(p, ops, here, s);
        Simulate(p, components, ops[1..], Step(p, components, op, m).machine);
      }
    }
  }

  /** After any prefix of the code the stack holds at most one value per consuming op. */
  lemma {:induction false} StackBound(p: Pattern, components: seq<string>, ops: seq<Op>, m: Machine, k: nat)
    requires m.pos <= |components| && k <= |ops|
    requires CheckOps(p, ops, |m.stack|).Some?
    ensures var r := Run(p, components, ops[..k], m);
            r.Running? ==> |r.machine.stack| <= |m.stack| + |Shape(p, ops)|
    decreases |ops|
  {
    if k > 0 {
      var next := Step(p, components, ops[0], m);
      assert ops[..k][1..] == ops[1..][..k - 1];
      if next.Running? {
        StackBound(p, components, ops[1..], next.machine, k - 1);
      }
    }
  }

  // ----- the compiler's code -----

  lemma {:induction false} CheckAppend(p: Pattern, a: seq<Op>, b: seq<Op>, depth: nat)
    requires CheckOps(p, a, depth).Some?
    ensures CheckOps(p, a + b, depth) == CheckOps(p, b, CheckOps(p, a, depth).value)
    decreases |a|
  {
    if a == [] {
      assert a + b == b;
    } else {
      assert (a + b)[1..] == a[1..] + b;
      CheckAppend(p, a[1..], b, CheckOp(p, a[0], depth).value);
    }
  }

  lemma {:induction false} ShapeAppend(p: Pattern, a: seq<Op>, b: seq<Op>)
    ensures Shape(p, a + b) == Shape(p, a) + Shape(p, b)
  {
    if a == [] {
      assert a + b == b;
    } else {
      assert (a + b)[1..] == a[1..] + b;
      ShapeAppend(p, a[1..], b);
    }
  }

  lemma {:induction false} ShapeRest(p: Pattern, ops: seq<Op>)
    ensures ops == [] ==> Shape(p, ops) == []
    ensures ops != [] ==> |Shape(p, ops)| == (if Consumes(ops[0]) then 1 else 0) + |Shape(p, ops[1..])|
  {
  }

  lemma {:induction false} ReplayAppend(p: Pattern, a: seq<Op>, b: seq<Op>, u: seq<string>, v: seq<string>, s: Store)
    requires |u| == |Shape(p, a)| && |v| == |Shape(p, b)|
    ensures |u + v| == |Shape(p, a + b)|
    ensures Replay(p, a + b, u + v, s) == Replay(p, b, v, Replay(p, a, u, s))
    decreases |a|
  {
    hide ReplayOp, OpPiece, Shape;
    ShapeAppend(p, a, b);
    ShapeRest(p, a);
    if a == [] {
      assert a + b == b && u + v == v;
    } else {
      assert (a + b)[0] == a[0] && (a + b)[1..] == a[1..] + b;
      if Consumes(a[0]) {
        assert (u + v)[0] == u[0] && (u + v)[1..] == u[1..] + v;
        ReplayAppend(p, a[1..], b, u[1..], v, ReplayOp(p, a[0], u[0], s));
      } else {
        ReplayAppend(p, a[1..], b, u, v, ReplayOp(p, a[0], "", s));
      }
    }
  }

  lemma {:induction false} ReplayAppendTo(p: Pattern, a: seq<Op>, b: seq<Op>, ab: seq<Op>, u: seq<string>,
      v: seq<string>, uv: seq<string>, s: Store)
    requires |u| == |Shape(p, a)| && |v| == |Shape(p, b)| && |uv| == |Shape(p, ab)|
    requires ab == a + b && uv == u + v
    ensures Replay(p, ab, uv, s) == Replay(p, b, v, Replay(p, a, u, s))
  {
    ReplayAppend(p, a, b, u, v, s);
  }

  lemma {:induction false} CaptureOrderAppend(a: seq<Op>, b: seq<Op>)
    ensures CaptureOrder(a + b) == CaptureOrder(a) + CaptureOrder(b)
  {
    if a == [] {
      assert a + b == b;
    } else {
      assert (a + b)[1..] == a[1..] + b;
      CaptureOrderAppend(a[1..], b);
    }
  }

  lemma {:induction false} LiteralTable(p: Pattern, pieces: seq<Piece>, k: nat)
    requires pieces != [] && k <= |p.pool| && Literals(pieces) <= p.pool[k..]
    ensures var literal := PieceLiteral(pieces[0]);
            literal <= p.pool[k..] && k + |literal| <= |p.pool| && Literals(pieces[1..]) <= p.pool[k + |literal|..]
  {
    hide PieceLiteral;
    assert Literals(pieces) == PieceLiteral(pieces[0]) + Literals(pieces[1..]);
    PrefixSplit(PieceLiteral(pieces[0]), Literals(pieces[1..]), p.pool, k);
  }

  lemma PieceCode(p: Pattern, piece: Piece, k: nat, depth: nat)
    requires k <= |p.pool| && PieceLiteral(piece) <= p.pool[k..]
    ensures var op := PieceOp(piece, k);
            CheckOp(p, op, depth) == Some(depth + 1) && OpPiece(p, op) == [piece] && op.code != Capture
  {
    if piece.Literal? { assert PieceLiteral(piece)[0] == p.pool[k..][0]; }
  }

  /** Code for pieces pushes one value per piece. */
  lemma {:induction false} PiecesCode(p: Pattern, pieces: seq<Piece>, k: nat, depth: nat)
    requires k <= |p.pool| && Literals(pieces) <= p.pool[k..]
    ensures CheckOps(p, PieceOps(pieces, k), depth) == Some(depth + |pieces|)
    ensures Shape(p, PieceOps(pieces, k)) == pieces
    ensures CaptureOrder(PieceOps(pieces, k)) == []
    decreases |pieces|
  {
    hide Literals, PieceLiteral, OpPiece, CheckOp, PieceOp, InRange;
    if pieces != [] {
      var first, k' := pieces[0], k + |PieceLiteral(pieces[0])|;
      LiteralTable(p, pieces, k);
      PiecesCode(p, pieces[1..], k', depth + 1);
      PieceCode(p, first, k, depth);
      var op := PieceOp(first, k);
      assert PieceOps(pieces, k)[0] == op && PieceOps(pieces, k)[1..] == PieceOps(pieces[1..], k');
    }
  }

  lemma {:induction false} PiecesReplay(p: Pattern, pieces: seq<Piece>, k: nat, values: seq<string>, s: Store)
    requires |values| == |pieces| == |Shape(p, PieceOps(pieces, k))|
    ensures Replay(p, PieceOps(pieces, k), values, s) == s.(stack := s.stack + values)
    decreases |pieces|
  {
    if pieces == [] {
      assert s.stack + values == s.stack;
    } else {
      var k' := k + |PieceLiteral(pieces[0])|;
      var s' := s.(stack := s.stack + [values[0]]);
      assert PieceOps(pieces, k)[1..] == PieceOps(pieces[1..], k');
      PiecesReplay(p, pieces[1..], k', values[1..], s');
      assert s'.stack + values[1..] == s.stack + values;
    }
  }

  /** The captures a template makes out of one value per piece, later duplicates winning. */
  function Captures(segments: seq<Segment>, values: seq<string>, captured: map<string, string>): map<string, string>
    requires |values| == |Pieces(segments)|
    decreases |segments|
  {
    if segments == [] then captured
    else
      var n := |SegmentPieces(segments[0])|;
      Captures(segments[1..], values[n..],
               if segments[0].Variable? then captured[segments[0].fieldPath := Join(values[..n], '/')] else captured)
  }

  ghost predicate VariablesNonEmpty(segments: seq<Segment>)
  {
    forall s <- segments :: SegmentPieces(s) != []
  }

  function Upto(j: nat, n: nat): seq<int>
  {
    seq(n, i requires 0 <= i < n => j + i)
  }

  lemma UptoAppend(j: nat, n: nat, m: nat)
    ensures Upto(j, n) + Upto(j + n, m) == Upto(j, n + m)
  {
  }

  lemma {:induction false} CaptureCode(p: Pattern, n: nat, j: nat, depth: nat)
    requires 1 <= n <= depth && j < |p.vars|
    ensures CheckOps(p, CaptureOps(n, j), depth) == Some(depth - n)
    ensures Shape(p, CaptureOps(n, j)) == []
    ensures CaptureOrder(CaptureOps(n, j)) == [j]
  {
    var capture := [Op(Capture, j)];
    assert CheckOps(p, capture, depth - n + 1) == Some(depth - n);
    assert CaptureOrder(capture) == [capture[0].operand] + CaptureOrder([]);
    assert Shape(p, capture) == OpPiece(p, capture[0]) + Shape(p, []);
    if n > 1 {
      assert CaptureOps(n, j)[1..] == capture;
      assert Shape(p, CaptureOps(n, j)) == OpPiece(p, CaptureOps(n, j)[0]) + Shape(p, capture);
    } else {
      assert CaptureOps(n, j) == capture;
    }
  }

  /** Joining the top n values and capturing them is capturing their join. */
  lemma {:induction false} CaptureReplay(p: Pattern, n: nat, j: nat, stack: seq<string>, values: seq<string>,
      captured: map<string, string>)
    requires 1 <= n == |values| && j < |p.vars|
    requires Shape(p, CaptureOps(n, j)) == []
    ensures Replay(p, CaptureOps(n, j), [], Store(stack + values, captured)) ==
            Store(stack, captured[p.vars[j] := Join(values, '/')])
  {
    var s := Store(stack + values, captured);
    var ops := CaptureOps(n, j);
    var capture := [Op(Capture, j)];
    assert (stack + values)[..|stack|] == stack && (stack + values)[|stack|..] == values;
    if n > 1 {
      assert ops[1..] == capture;
      var s' := ReplayOp(p, ops[0], "", s);
      assert s' == Store(stack + [Join(values, '/')], captured);
      assert s'.stack[..|stack|] == stack;
      assert Replay(p, capture, [], s') == ReplayOp(p, capture[0], "", s');
    } else {
      assert ops == capture;
      assert Replay(p, capture, [], s) == ReplayOp(p, capture[0], "", s);
    }
  }

  /** The pool and the variable table hold what the segments need, from index k and j on. */
  ghost predicate TablesHold(p: Pattern, segments: seq<Segment>, k: nat, j: nat)
  {
    && k <= |p.pool| && Literals(Pieces(segments)) <= p.pool[k..]
    && j <= |p.vars| && Vars(segments) <= p.vars[j..]
  }

  ghost predicate TablesHoldFirst(p: Pattern, segment: Segment, k: nat, j: nat)
  {
    && k <= |p.pool| && Literals(SegmentPieces(segment)) <= p.pool[k..]
    && j <= |p.vars| && SegmentVars(segment) <= p.vars[j..]
  }

  ghost predicate CodeChecked(p: Pattern, ops: seq<Op>, depth: nat, pieces: seq<Piece>, order: seq<int>)
  {
    CheckOps(p, ops, depth).Some? && Shape(p, ops) == pieces && CaptureOrder(ops) == order
  }

  lemma {:induction false} SegmentCode(p: Pattern, segment: Segment, k: nat, j: nat, depth: nat)
    requires SegmentPieces(segment) != [] && TablesHoldFirst(p, segment, k, j)
    ensures CheckOps(p, SegmentOps(segment, k, j), depth) == Some(depth + if segment.Single? then 1 else 0)
    ensures CodeChecked(p, SegmentOps(segment, k, j), depth, SegmentPieces(segment), Upto(j, |SegmentVars(segment)|))
  {
    hide CheckOps, Shape, CaptureOrder, PieceOps, CaptureOps, Literals;
    match segment
    case Single(piece) =>
      PiecesCode(p, [piece], k, depth);
      OnePieceOps(piece, k);
    case Variable(_, pieces) =>
      var pushes, capture := PieceOps(pieces, k), CaptureOps(|pieces|, j);
      PiecesCode(p, pieces, k, depth);
      CaptureCode(p, |pieces|, j, depth + |pieces|);
      CheckAppend(p, pushes, capture, depth);
      ShapeAppend(p, pushes, capture);
      CaptureOrderAppend(pushes, capture);
  }

  lemma {:induction false} OnePieceOps(piece: Piece, k: nat)
    ensures PieceOps([piece], k) == [PieceOp(piece, k)]
  {
    assert PieceOps([piece], k) == [PieceOp(piece, k)] + PieceOps([], k + |PieceLiteral(piece)|);
  }

  lemma {:induction false} SegmentReplay(p: Pattern, segment: Segment, k: nat, j: nat, values: seq<string>, s: Store)
    requires SegmentPieces(segment) != [] && TablesHoldFirst(p, segment, k, j)
    requires |values| == |SegmentPieces(segment)| == |Shape(p, SegmentOps(segment, k, j))|
    ensures Replay(p, SegmentOps(segment, k, j), values, s).captured ==
            if segment.Variable? then s.captured[segment.fieldPath := Join(values, '/')] else s.captured
  {
    match segment
    case Single(piece) =>
      PiecesCode(p, [piece], k, 0);
      assert PieceOps([piece], k) == SegmentOps(segment, k, j);
      PiecesReplay(p, [piece], k, values, s);
    case Variable(f, pieces) =>
      var pushes, capture := PieceOps(pieces, k), CaptureOps(|pieces|, j);
      assert SegmentVars(segment)[0] == p.vars[j];
      PiecesCode(p, pieces, k, 0);
      CaptureCode(p, |pieces|, j, |pieces|);
      PiecesReplay(p, pieces, k, values, s);
      ReplayAppend(p, pushes, capture, values, [], s);
      assert values + [] == values;
      CaptureReplay(p, |pieces|, j, s.stack, values, s.captured);
  }

  lemma {:induction false} CodeAppend(p: Pattern, a: seq<Op>, b: seq<Op>, ab: seq<Op>, depth: nat, depth': nat,
      pieces: seq<Piece>, pieces': seq<Piece>, all: seq<Piece>, order: seq<int>, order': seq<int>, whole: seq<int>)
    requires CodeChecked(p, a, depth, pieces, order) && CheckOps(p, a, depth) == Some(depth')
    requires CodeChecked(p, b, depth', pieces', order')
    requires ab == a + b && all == pieces + pieces' && whole == order + order'
    ensures CodeChecked(p, ab, depth, all, whole)
  {
    CheckAppend(p, a, b, depth);
    ShapeAppend(p, a, b);
    CaptureOrderAppend(a, b);
  }

  lemma CodeEmpty(p: Pattern, j: nat, depth: nat)
    ensures CodeChecked(p, [], depth, [], Upto(j, 0))
  {
  }

  lemma {:induction false} SegmentsCode(p: Pattern, segments: seq<Segment>, k: nat, j: nat, depth: nat)
    requires VariablesNonEmpty(segments) && TablesHold(p, segments, k, j)
    ensures CodeChecked(p, SegmentsOps(segments, k, j), depth, Pieces(segments), Upto(j, |Vars(segments)|))
    decreases |segments|
  {
    hide CheckOps, Shape, CaptureOrder, SegmentOps, Literals, Upto, CodeChecked, TablesHold, TablesHoldFirst;
    if segments == [] {
      CodeEmpty(p, j, depth);
    } else {
      var first, rest := segments[0], segments[1..];
      var k', j' := k + |Literals(SegmentPieces(first))|, j + |SegmentVars(first)|;
      var depth' := depth + if first.Single? then 1 else 0;
      TablePrefixes(p, segments, k, j);
      SegmentCode(p, first, k, j, depth);
      SegmentsCode(p, rest, k', j', depth');
      Unfold(segments, k, j, k', j');
      var n, m := |SegmentVars(first)|, |Vars(rest)|;
      assert |Vars(segments)| == n + m;
      UptoAppend(j, n, m);
      CodeAppend(p, SegmentOps(first, k, j), SegmentsOps(rest, k', j'), SegmentsOps(segments, k, j), depth, depth',
                 SegmentPieces(first), Pieces(rest), Pieces(segments), Upto(j, n), Upto(j', m),
                 Upto(j, |Vars(segments)|));
    }
  }

  /** The tables of the first segment and of the rest lie one after the other. */
  lemma TablePrefixes(p: Pattern, segments: seq<Segment>, k: nat, j: nat)
    requires segments != [] && TablesHold(p, segments, k, j)
    ensures var literals, vars := Literals(SegmentPieces(segments[0])), SegmentVars(segments[0]);
            TablesHoldFirst(p, segments[0], k, j) && TablesHold(p, segments[1..], k + |literals|, j + |vars|)
  {
    LiteralsRest(segments);
    var literals, vars := Literals(SegmentPieces(segments[0])), SegmentVars(segments[0]);
    PrefixSplit(literals, Literals(Pieces(segments[1..])), p.pool, k);
    PrefixSplit(vars, Vars(segments[1..]), p.vars, j);
  }

  lemma PrefixSplit<T>(a: seq<T>, b: seq<T>, s: seq<T>, k: nat)
    requires k <= |s| && a + b <= s[k..]
    ensures a <= s[k..] && k + |a| <= |s| && b <= s[k + |a|..]
  {
    assert s[k..][..|a|] == (a + b)[..|a|] == a;
    assert s[k + |a|..][..|b|] == (a + b)[|a|..] == b;
  }

  lemma {:induction false} ReplayNothing(p: Pattern, k: nat, j: nat, s: Store)
    ensures |Shape(p, SegmentsOps([], k, j))| == 0 && Replay(p, SegmentsOps([], k, j), [], s) == s
  {
  }

  lemma {:induction false} ShapesKnown(p: Pattern, first: Segment, rest: seq<Segment>, k: nat, j: nat, k': nat, j': nat)
    requires SegmentPieces(first) != [] && TablesHoldFirst(p, first, k, j)
    requires VariablesNonEmpty(rest) && TablesHold(p, rest, k', j')
    ensures |Shape(p, SegmentOps(first, k, j))| == |SegmentPieces(first)|
    ensures |Shape(p, SegmentsOps(rest, k', j'))| == |Pieces(rest)|
  {
    hide Shape, SegmentOps, SegmentsOps, CheckOps, CaptureOrder;
    SegmentCode(p, first, k, j, 0);
    SegmentsCode(p, rest, k', j', 0);
  }

  lemma {:induction false} SegmentsReplay(p: Pattern, segments: seq<Segment>, k: nat, j: nat, values: seq<string>,
      s: Store)
    requires VariablesNonEmpty(segments) && TablesHold(p, segments, k, j)
    requires |values| == |Pieces(segments)| == |Shape(p, SegmentsOps(segments, k, j))|
    ensures Replay(p, SegmentsOps(segments, k, j), values, s).captured == Captures(segments, values, s.captured)
    decreases |segments|
  {
    hide Shape, SegmentOps, SegmentsOps, Literals, TablesHold, TablesHoldFirst, Replay;
    if segments == [] {
      ReplayNothing(p, k, j, s);
    } else {
      var first, rest := segments[0], segments[1..];
      var k', j' := k + |Literals(SegmentPieces(first))|, j + |SegmentVars(first)|;
      var a, b := SegmentOps(first, k, j), SegmentsOps(rest, k', j');
      Unfold(segments, k, j, k', j');
      TablePrefixes(p, segments, k, j);
      ShapesKnown(p, first, rest, k, j, k', j');
      var now, later := values[..|SegmentPieces(first)|], values[|SegmentPieces(first)|..];
      assert values == now + later;
      ReplayAppendTo(p, a, b, SegmentsOps(segments, k, j), now, later, values, s);
      var s' := Replay(p, a, now, s);
      SegmentReplay(p, first, k, j, now, s);
      SegmentsReplay(p, rest, k', j', later, s');
    }
  }

  // ----- every compiled template -----

  lemma {:induction false} ClassifyNonEmpty(texts: seq<string>)
    ensures VariablesNonEmpty(ClassifyAll(texts))
  {
    if texts != [] {
      ClassifyNonEmpty(texts[1..]);
      assert SegmentPieces(Classify(texts[0])) != [];
    }
  }

  lemma ParsedNonEmpty(text: string)
    requires Parse(text).Some?
    ensures VariablesNonEmpty(Parse(text).value.segments)
  {
    var (path, _) := CutVerb(StripSlash(text));
    ClassifyNonEmpty(Merge(Split(path, '/'), 0, "").value);
  }

  /** What the compiler emits passes the stack check and captures each variable once, in order. */
  lemma GeneratedSafe(t: Template)
    requires VariablesNonEmpty(t.segments)
    ensures var p := Generate(t);
            && StackSafe(p)
            && Shape(p, p.ops) == Pieces(t.segments)
            && CaptureOrder(p.ops) == Upto(0, |p.vars|)
            && p.stackSize == |Shape(p, p.ops)|
  {
    var p := Generate(t);
    assert p.pool[0..] == p.pool && p.vars[0..] == p.vars;
    SegmentsCode(p, t.segments, 0, 0, 0);
  }

  /**
   * Bytecode safety: for every template text that compiles, grammatical or not, on every path and after every
   * prefix of the code, the machine's table and underflow exits are not taken and the stack fits its size.
   */
  lemma {:induction false} CompiledSafe(text: string, components: seq<string>, k: nat)
    requires Parse(text).Some?
    requires k <= |Generate(Parse(text).value).ops|
    ensures var p := Generate(Parse(text).value);
            && CaptureOrder(p.ops) == Upto(0, |p.vars|)
            && (match Run(p, components, p.ops, START)
                case Stopped(why) => IsMismatch(why)
                case Running(_) => true)
            && (match Run(p, components, p.ops[..k], START)
                case Stopped(why) => IsMismatch(why)
                case Running(m) => |m.stack| <= p.stackSize)
  {
    var p := Generate(Parse(text).value);
    ParsedNonEmpty(text);
    GeneratedSafe(Parse(text).value);
    Simulate(p, components, p.ops, START);
    StackBound(p, components, p.ops, START, k);
    CheckPrefix(p, p.ops, 0, k);
    Simulate(p, components, p.ops[..k], START);
  }

  lemma {:induction false} CheckPrefix(p: Pattern, ops: seq<Op>, depth: nat, k: nat)
    requires CheckOps(p, ops, depth).Some? && k <= |ops|
    ensures CheckOps(p, ops[..k], depth).Some?
    decreases |ops|
  {
    if k > 0 {
      assert ops[..k][1..] == ops[1..][..k - 1];
      CheckPrefix(p, ops[1..], CheckOp(p, ops[0], depth).value, k - 1);
    }
  }

  /** Running a compiled template is one greedy pass over its pieces, then the captures of the joined slices. */
  lemma {:induction false} ExecuteGenerated(t: Template, components: seq<string>)
    requires VariablesNonEmpty(t.segments)
    ensures var r := Execute(Generate(t), components);
            var c := Consume(Pieces(t.segments), 0, components);
            && (r.Running? <==> c.Some? && c.value.rest == [])
            && (r.Running? ==> r.machine.captured == Captures(t.segments, Joined(c.value.slices), map[]))
  {
    var p := Generate(t);
    GeneratedSafe(t);
    Simulate(p, components, p.ops, START);
    assert components[0..] == components;
    var c := Consume(Pieces(t.segments), 0, components);
    if c.Some? {
      assert p.pool[0..] == p.pool && p.vars[0..] == p.vars;
      SegmentsReplay(p, t.segments, 0, 0, Joined(c.value.slices), Store([], map[]));
    }
  }
}
