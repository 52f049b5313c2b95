/** The stack machine that runs a compiled pattern over a request path. */
module PatternMatcher {
  import opened Text
  import opened PathTemplate

  // ----- the components of a path -----

  function DropEmptyLast(parts: seq<string>): seq<string>
  {
    if |parts| > 1 && parts[|parts| - 1] == "" then parts[..|parts| - 1] else parts
  }

  /** One leading slash is stripped; one empty trailing component is dropped. */
  function Components(path: string): (components: seq<string>)
    ensures |components| >= 1
  {
    DropEmptyLast(Split(StripSlash(path), '/'))
  }

  /** The components without the verb; None when the pattern's verb is not there. */
  function StripVerb(components: seq<string>, verb: string): Option<seq<string>>
    requires |components| >= 1
  {
    if verb == "" then Some(components)
    else
      var n := |components| - 1;
      var last := components[n];
      var i := LastIndex(last, ':');
      if i.Some? && last[i.value + 1..] == verb then Some(components[..n] + [last[..i.value]]) else None
  }

  // ----- the machine -----

  /** Why a run stops. The source returns the same empty answer for all of them. */
  datatype Stop =
    | OutOfComponents | LiteralDiffers | TailTooShort | LeftOver
    | BadPoolIndex | ConcatUnderflow | CaptureUnderflow

  datatype Machine = Machine(stack: seq<string>, pos: nat, captured: map<string, string>)

  datatype Outcome = Running(machine: Machine) | Stopped(why: Stop)

  predicate InRange(operand: int, n: nat)
  {
    0 <= operand < n
  }

  function Step(p: Pattern, components: seq<string>, op: Op, m: Machine): (r: Outcome)
    requires m.pos <= |components|
    ensures r.Running? ==> m.pos <= r.machine.pos <= |components|
  {
    match op.code
    case Nop => Running(m)
    case Push =>
      if m.pos >= |components| then Stopped(OutOfComponents)
      else Running(Machine(m.stack + [components[m.pos]], m.pos + 1, m.captured))
    case LitPush =>
      if m.pos >= |components| then Stopped(OutOfComponents)
      else if !InRange(op.operand, |p.pool|) then Stopped(BadPoolIndex)
      else if components[m.pos] != p.pool[op.operand] then Stopped(LiteralDiffers)
      else Running(Machine(m.stack + [components[m.pos]], m.pos + 1, m.captured))
    case PushM =>
      if |components| < m.pos + p.tailLen then Stopped(TailTooShort)
      else
        var end := |components| - p.tailLen;
        Running(Machine(m.stack + [Join(components[m.pos..end], '/')], end, m.captured))
    case ConcatN =>
      if !(0 <= op.operand <= |m.stack|) then Stopped(ConcatUnderflow)
      else
        var i := |m.stack| - op.operand;
        Running(Machine(m.stack[..i] + [Join(m.stack[i..], '/')], m.pos, m.captured))
    case Capture =>
      if m.stack == [] then Stopped(CaptureUnderflow)
      else
        var top := |m.stack| - 1;
        Running(Machine(
          m.stack[..top], m.pos,
          if InRange(op.operand, |p.vars|) then m.captured[p.vars[op.operand] := m.stack[top]] else m.captured))
  }

  /** Code that no template compiles to: negative or too large operands, and captures outside the variable table. */
  lemma OutsideTables(p: Pattern, components: seq<string>, op: Op, m: Machine)
    requires m.pos <= |components|
    ensures op.code == LitPush && (op.operand < 0 || op.operand >= |p.pool|) ==> Step(p, components, op, m).Stopped?
    ensures op.code == ConcatN && (op.operand < 0 || op.operand > |m.stack|) ==> Step(p, components, op, m).Stopped?
    ensures op.code == Capture && (op.operand < 0 || op.operand >= |p.vars|) && m.stack != [] ==>
              Step(p, components, op, m) == Running(Machine(m.stack[..|m.stack| - 1], m.pos, m.captured))
    ensures op.code == Nop ==> Step(p, components, op, m) == Running(m)
  {
  }

  function Run(p: Pattern, components: seq<string>, ops: seq<Op>, m: Machine): (r: Outcome)
    requires m.pos <= |components|
    ensures r.Running? ==> m.pos <= r.machine.pos <= |components|
    decreases |ops|
  {
    if ops == [] then Running(m)
    else
      var next := Step(p, components, ops[0], m);
      if next.Stopped? then next else Run(p, components, ops[1..], next.machine)
  }

  const START := Machine([], 0, map[])

  /** The whole run over the components, verb already removed. */
  function Execute(p: Pattern, components: seq<string>): Outcome
  {
    var r := Run(p, components, p.ops, START);
    if r.Running? && r.machine.pos < |components| then Stopped(LeftOver) else r
  }

  /** The captures of a run that gets through, verb already removed. */
  function Captured(p: Pattern, components: seq<string>): Option<map<string, string>>
  {
    var r := Execute(p, components);
    if r.Running? then Some(r.machine.captured) else None
  }

  /** What `route_matcher` answers. */
  function Match(p: Pattern, path: string): Option<map<string, string>>
  {
    var head := StripVerb(Components(path), VerbText(p.verb));
    if head.None? then None else Captured(p, head.value)
  }

  // ----- the matcher -----

  /** The first half of `route_matcher`: normalise the path, check the verb and take it off. */
  method RequestComponents(path: string, verb: string) returns (r: Option<seq<string>>)
    ensures r == StripVerb(Components(path), verb)
  {
    var components := Split(StripSlash(path), '/');
    if components[|components| - 1] == "" && |components| > 1 {
      components := components[..|components| - 1];
    }
    var currentVerb := "";
    var n := |components| - 1;
    var last := components[n];
    var idx := LastIndex(last, ':');
    if idx.Some? {
      var stripped := last[idx.value + 1..];
      if stripped == verb {
        currentVerb := stripped;
      }
    }
    if verb != currentVerb {
      return None;
    }
    if verb != "" {
      components := components[n := last[..|last| - |verb| - 1]];
      assert components == Components(path)[..n] + [last[..idx.value]];
    }
    r := Some(components);
  }

  /** The body of the op loop; ok is false where the source returns without a match. */
  method ExecuteOp(p: Pattern, components: seq<string>, op: Op, m: Machine)
    returns (ok: bool, stack: seq<string>, pos: nat, captured: map<string, string>)
    requires m.pos <= |components|
    ensures ok <==> Step(p, components, op, m).Running?
    ensures ok ==> Machine(stack, pos, captured) == Step(p, components, op, m).machine
  {
    hide Join;
    ok, stack, pos, captured := true, m.stack, m.pos, m.captured;
    match op.code
    case Nop =>
    case Push =>
      if pos >= |components| {
        ok := false;
        return;
      }
      stack := stack + [components[pos]];
      pos := pos + 1;
    case LitPush =>
      if pos >= |components| {
        ok := false;
        return;
      }
      var c := components[pos];
      if InRange(op.operand, |p.pool|) {
        if c != p.pool[op.operand] {
          ok := false;
          return;
        }
      } else {
        ok := false;
        return;
      }
      stack := stack + [c];
      pos := pos + 1;
    case PushM =>
      if |components| < pos + p.tailLen {
        ok := false;
        return;
      }
      var end := |components| - p.tailLen;
      stack := stack + [Join(components[pos..end], '/')];
      pos := end;
    case ConcatN =>
      if !(0 <= op.operand <= |stack|) {
        ok := false;
        return;
      }
      var splitIdx := |stack| - op.operand;
      var joined := Join(stack[splitIdx..], '/');
      stack := stack[..splitIdx];
      stack := stack + [joined];
    case Capture =>
      if stack == [] {
        ok := false;
        return;
      }
      var val := stack[|stack| - 1];
      stack := stack[..|stack| - 1];
      if InRange(op.operand, |p.vars|) {
        captured := captured[p.vars[op.operand] := val];
      }
  }

  /** `route_matcher`: the second half runs the code over stack, cursor and captures. */
  method RouteMatcher(p: Pattern, path: string) returns (r: Option<map<string, string>>)
    ensures r == Match(p, path)
  {
    var request := RequestComponents(path, VerbText(p.verb));
    if request.None? {
      return None;
    }
    var components := request.value;
    var stack: seq<string> := [];
    var pos: nat := 0;
    var captured: map<string, string> := map[];
    assert p.ops[0..] == p.ops;
    for i := 0 to |p.ops|
      invariant pos <= |components|
      invariant Run(p, components, p.ops, START) == Run(p, components, p.ops[i..], Machine(stack, pos, captured))
    {
      assert p.ops[i..][1..] == p.ops[i + 1..];
      var ok: bool;
      ok, stack, pos, captured := ExecuteOp(p, components, p.ops[i], Machine(stack, pos, captured));
      if !ok {
        return None;
      }
    }
    if pos < |components| {
      return None;
    }
    r := Some(captured);
  }
}
