/**
  The slice of Python's syntax tree that the ABC rules look at.

  Each node kind that has a rule of its own (or that a rule inspects by type: `Name`,
  `Tuple`, `Constant`) is a constructor carrying the fields the rules read. Every other
  node kind is `Other` when the parser gives it a position, and `Positionless` when it
  does not (the module, operators, expression contexts, comprehension clauses, ...).
*/
module Ast {

  /** Line numbers that the parser attaches to statements and expressions start at 1. */
  type LineNo = n: int | n >= 1 witness 1

  datatype Node =
    | For(lineno: LineNo, orelse: seq<Node>)
    | While(lineno: LineNo, orelse: seq<Node>)
    | Try(lineno: LineNo, orelse: seq<Node>)
    | If(lineno: LineNo, test: Node, orelse: seq<Node>)
      /** `body if test else alternative`; the alternative is the expression's `orelse` */
    | IfExp(lineno: LineNo, test: Node, alternative: Node)
    | Assign(lineno: LineNo, targets: seq<Node>)
    | AnnAssign(lineno: LineNo)
    | AugAssign(lineno: LineNo)
    | Call(lineno: LineNo)
    | BoolOp(lineno: LineNo, values: seq<Node>)
    | Compare(lineno: LineNo)
    | ExceptHandler(lineno: LineNo)
    | Assert(lineno: LineNo, test: Node)
    | Name(lineno: LineNo)
    | Tuple(lineno: LineNo, elts: seq<Node>)
    | Constant(lineno: LineNo)
    | Other(lineno: LineNo)
    | Positionless

  /** The node has a `lineno` attribute. */
  predicate HasLineno(n: Node) {
    !n.Positionless?
  }

  /** `getattr(node, "lineno", 0)` */
  function LinenoOrZero(n: Node): (line: int)
    ensures HasLineno(n) <==> line >= 1
    ensures HasLineno(n) ==> line == n.lineno
  {
    if n.Positionless? then 0 else n.lineno
  }
}
