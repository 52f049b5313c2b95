/** Path templates as syntax, and the bytecode they are compiled to. */
module PathTemplate {
  import opened Text

  // ----- syntax -----

  /** A segment that is not a variable. */
  datatype Piece = Literal(text: string) | Wildcard | DeepWildcard

  /** A variable holds pieces only: the grammar forbids variables inside variables. */
  datatype Segment = Single(piece: Piece) | Variable(fieldPath: string, pieces: seq<Piece>)

  datatype Template = Template(segments: seq<Segment>, verb: Option<string>)

  function SegmentPieces(segment: Segment): seq<Piece>
  {
    match segment
    case Single(piece) => [piece]
    case Variable(_, pieces) => pieces
  }

  /** All pieces from left to right, variables opened up. */
  function Pieces(segments: seq<Segment>): seq<Piece>
  {
    if segments == [] then [] else SegmentPieces(segments[0]) + Pieces(segments[1..])
  }

  function SegmentVars(segment: Segment): seq<string>
  {
    if segment.Variable? then [segment.fieldPath] else []
  }

  /** The field paths bound by a template, in order. */
  function Vars(segments: seq<Segment>): seq<string>
  {
    if segments == [] then [] else SegmentVars(segments[0]) + Vars(segments[1..])
  }

  /** Nothing but `**` follows a `**`; the grammar's "`**` only last" is the case of a single one. */
  predicate DeepLast(pieces: seq<Piece>)
  {
    pieces == [] ||
    (DeepLast(pieces[1..]) && (pieces[0].DeepWildcard? ==> forall p <- pieces[1..] :: p.DeepWildcard?))
  }

  function VerbText(verb: Option<string>): string
  {
    if verb.Some? then verb.value else ""
  }

  // ----- bytecode -----

  datatype OpCode = Nop | Push | LitPush | PushM | ConcatN | Capture

  datatype Op = Op(code: OpCode, operand: int)

  datatype Pattern = Pattern(
    ops: seq<Op>,
    pool: seq<string>,
    vars: seq<string>,
    stackSize: nat,
    tailLen: nat,
    verb: Option<string>)
}
