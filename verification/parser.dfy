/** The recursive-descent parser. Grammar (one procedure per production):
      start := expr
      expr  := op expr'
      expr' := op expr' | ε
      op    := + | - | . | , | < | > | loop
      loop  := [ expr ]
    The global cursor of the source becomes an explicit index `pos` into the
    token list; the previously consumed token is `ts[pos - 1]`. */
module Parser {
  import opened Wrappers
  import opened Lexer

  /** Grammar symbols, in the order of the source's `Symbol` enumeration. */
  datatype Symbol =
    | NodeStart | NodeExpr | NodeExprCont | NodeOp | NodeLoop
    | NodeMoveLeft | NodeMoveRight | NodeIncrement | NodeDecrement
    | NodeOutput | NodeInput | NodeJumpForward | NodeJumpBackward

  /** A tree node, or `Nil` for a NULL child pointer: the source stores NULL
      in an `expr'` node's continuation slot when the nested `expr'` is empty. */
  datatype Tree = Nil | Node(sym: Symbol, depth: nat, children: seq<Tree>)

  function Leaf(sym: Symbol, depth: nat): Tree {
    Node(sym, depth, [])
  }

  predicate IsTerminal(sym: Symbol) {
    sym.NodeMoveLeft? || sym.NodeMoveRight? || sym.NodeIncrement? || sym.NodeDecrement?
    || sym.NodeOutput? || sym.NodeInput? || sym.NodeJumpForward? || sym.NodeJumpBackward?
  }

  /** The terminal symbol for each token kind. */
  function TerminalOf(k: Kind): (sym: Symbol)
    ensures IsTerminal(sym)
    ensures KindOfTerminal(sym) == Some(k)
    ensures sym == NodeJumpForward <==> k == JumpForward
    ensures sym == NodeJumpBackward <==> k == JumpBackward
  {
    match k
    case MoveLeft => NodeMoveLeft
    case MoveRight => NodeMoveRight
    case Increment => NodeIncrement
    case Decrement => NodeDecrement
    case Output => NodeOutput
    case Input => NodeInput
    case JumpForward => NodeJumpForward
    case JumpBackward => NodeJumpBackward
  }

  /** The token kind a terminal node stands for; none for a non-terminal. */
  function KindOfTerminal(sym: Symbol): (r: Option<Kind>)
    ensures r.Some? <==> IsTerminal(sym)
  {
    match sym
    case NodeMoveLeft => Some(MoveLeft)
    case NodeMoveRight => Some(MoveRight)
    case NodeIncrement => Some(Increment)
    case NodeDecrement => Some(Decrement)
    case NodeOutput => Some(Output)
    case NodeInput => Some(Input)
    case NodeJumpForward => Some(JumpForward)
    case NodeJumpBackward => Some(JumpBackward)
    case _ => None
  }

  /** Distinct kinds get distinct terminals, so a leaf names its token's kind. */
  lemma TerminalOfInjective(k: Kind, k': Kind)
    ensures TerminalOf(k) == TerminalOf(k') ==> k == k'
  {
    assert KindOfTerminal(TerminalOf(k)) == Some(k);
  }

  /** The six commands `op` turns directly into a terminal. */
  predicate IsCommand(k: Kind) {
    k != JumpForward && k != JumpBackward
  }

  /** Which FIRST set a diagnostic says was expected. */
  datatype Expected =
    | ExprStart     // expr: any of the eight lexemes (parser.h:309-328)
    | OpStart       // op: the six commands or `[` (parser.h:182-200)
    | Open          // loop: `[` (parser.h:95-119)
    | Close         // loop: `]` (parser.h:141-164)

  /** The fatal conditions, each with the token its message refers to. */
  datatype ParseError =
    | EmptyProgram
      // No token is left; `after` is the previously consumed token, the one
      // the message names, or None when nothing was consumed yet.
    | UnexpectedEnd(expected: Expected, after: Option<Token>)
      // A `]` where an `op` must start.
    | NoMatchingOpen(at: Token)
      // A token other than the one required by `loop`.
    | Mismatch(expected: Expected, found: Token)

  type ParseResult = Result<(Tree, nat), ParseError>

  /** The previously consumed token (`prevTokenPtr`). */
  function Prev(ts: seq<Token>, pos: nat): Option<Token>
    requires pos <= |ts|
  {
    if pos == 0 then None else Some(ts[pos - 1])
  }

  /** The cursor stands at the end of the list or at a `]`: where an `expr`
      hands control back to its caller. */
  predicate AtStop(ts: seq<Token>, p: nat) {
    p == |ts| || (p < |ts| && ts[p].kind == JumpBackward)
  }

  // ---- The shape each production gives its node (the grammar, with depths) ----

  /** An `op` node at `depth`: one child, a command terminal or a loop. */
  predicate IsOp(t: Tree, depth: nat)
    decreases t, 1
  {
    && t.Node? && t.sym == NodeOp && t.depth == depth && |t.children| == 1
    && var c := t.children[0];
       || (c.Node? && IsTerminal(c.sym) && !c.sym.NodeJumpForward? && !c.sym.NodeJumpBackward?
           && c.depth == depth && c.children == [])
       || IsLoop(c, depth)
  }

  /** A `loop` node: `[` and `]` at the loop's depth, the body one deeper. */
  predicate IsLoop(t: Tree, depth: nat)
    decreases t, 0
  {
    && t.Node? && t.sym == NodeLoop && t.depth == depth && |t.children| == 3
    && t.children[0] == Leaf(NodeJumpForward, depth)
    && IsExpr(t.children[1], depth + 1)
    && t.children[2] == Leaf(NodeJumpBackward, depth)
  }

  /** An `expr` node: an `op`, then a continuation only when one was built
      (never a NULL child). */
  predicate IsExpr(t: Tree, depth: nat)
    decreases t, 2
  {
    && t.Node? && t.sym == NodeExpr && t.depth == depth
    && (|t.children| == 1 || |t.children| == 2)
    && IsOp(t.children[0], depth)
    && (|t.children| == 2 ==> IsExprCont(t.children[1], depth))
  }

  /** An `expr'` node: an `op`, then a continuation slot that may hold NULL. */
  predicate IsExprCont(t: Tree, depth: nat)
    decreases t, 2
  {
    && t.Node? && t.sym == NodeExprCont && t.depth == depth
    && (|t.children| == 1 || |t.children| == 2)
    && IsOp(t.children[0], depth)
    && (|t.children| == 2 ==> t.children[1] == Nil || IsExprCont(t.children[1], depth))
  }

  /** The chain of `expr'` nodes ends in a NULL slot (rather than in a node
      with a single child). */
  predicate EndsInNullSlot(t: Tree)
    decreases t
  {
    && t.Node? && |t.children| == 2
    && (t.children[1] == Nil || EndsInNullSlot(t.children[1]))
  }

  // ---- The productions ----

  /** `production3`, `op`. */
  function ParseOp(ts: seq<Token>, pos: nat, depth: nat): (r: ParseResult)
    requires pos <= |ts|
    ensures pos == |ts| ==> r == Failure(UnexpectedEnd(OpStart, Prev(ts, pos)))
    ensures pos < |ts| && ts[pos].kind == JumpBackward ==> r == Failure(NoMatchingOpen(ts[pos]))
    ensures pos < |ts| && IsCommand(ts[pos].kind) ==>
              r == Success((Node(NodeOp, depth, [Leaf(TerminalOf(ts[pos].kind), depth)]), pos + 1))
    ensures pos < |ts| && ts[pos].kind == JumpForward ==>
              (r.Success? <==> ParseLoop(ts, pos, depth).Success?)
    ensures r.Success? ==> pos < r.value.1 <= |ts| && IsOp(r.value.0, depth)
    ensures r.Failure? ==> !r.error.EmptyProgram?
    decreases |ts| - pos, 2
  {
    if pos == |ts| then
      Failure(UnexpectedEnd(OpStart, Prev(ts, pos)))
    else if ts[pos].kind == JumpBackward then
      Failure(NoMatchingOpen(ts[pos]))
    else if ts[pos].kind == JumpForward then
      var (loop, next) :- ParseLoop(ts, pos, depth);
      Success((Node(NodeOp, depth, [loop]), next))
    else
      Success((Node(NodeOp, depth, [Leaf(TerminalOf(ts[pos].kind), depth)]), pos + 1))
  }

  /** `production4`, `loop`. */
  function ParseLoop(ts: seq<Token>, pos: nat, depth: nat): (r: ParseResult)
    requires pos <= |ts|
    ensures pos == |ts| ==> r == Failure(UnexpectedEnd(Open, Prev(ts, pos)))
    ensures pos < |ts| && ts[pos].kind != JumpForward ==> r == Failure(Mismatch(Open, ts[pos]))
    ensures pos < |ts| && ts[pos].kind == JumpForward && pos + 1 == |ts| ==>
              r == Failure(UnexpectedEnd(ExprStart, Some(ts[pos])))
    ensures pos + 1 < |ts| && ts[pos].kind == JumpForward && ts[pos + 1].kind == JumpBackward ==>
              r == Failure(NoMatchingOpen(ts[pos + 1]))
    ensures r.Success? ==>
              && pos + 3 <= r.value.1 <= |ts|
              && ts[pos].kind == JumpForward && ts[r.value.1 - 1].kind == JumpBackward
              && IsLoop(r.value.0, depth)
    ensures r.Failure? ==> !r.error.EmptyProgram?
    decreases |ts| - pos, 1
  {
    if pos == |ts| then
      Failure(UnexpectedEnd(Open, Prev(ts, pos)))
    else if ts[pos].kind != JumpForward then
      Failure(Mismatch(Open, ts[pos]))
    else
      var (body, next) :- ParseExpr(ts, pos + 1, depth + 1);
      // `ParseExpr` stops only at the end or at a `]`, so the source's
      // check for a token other than `]` here can never fire.
      if next == |ts| then
        Failure(UnexpectedEnd(Close, Prev(ts, next)))
      else
        var node := Node(NodeLoop, depth,
                         [Leaf(NodeJumpForward, depth), body, Leaf(NodeJumpBackward, depth)]);
        Success((node, next + 1))
  }

  /** `production2`, `expr'`. No node when the lookahead is the end or `]`;
      otherwise an `op`, and then a continuation slot whenever any token
      remains, even if the nested call builds nothing and leaves it NULL. */
  function ParseExprCont(ts: seq<Token>, pos: nat, depth: nat): (r: ParseResult)
    requires pos <= |ts|
    ensures AtStop(ts, pos) <==> r == Success((Nil, pos))
    ensures r.Success? ==>
              && pos <= r.value.1 <= |ts| && AtStop(ts, r.value.1)
              && (r.value.0 == Nil || IsExprCont(r.value.0, depth))
              && (r.value.0 != Nil ==> (EndsInNullSlot(r.value.0) <==> r.value.1 < |ts|))
    ensures r.Failure? ==> !r.error.EmptyProgram?
    decreases |ts| - pos, 3
  {
    if pos == |ts| || ts[pos].kind == JumpBackward then
      Success((Nil, pos))
    else
      var (op, next) :- ParseOp(ts, pos, depth);
      if next == |ts| then
        Success((Node(NodeExprCont, depth, [op]), next))
      else
        var (rest, last) :- ParseExprCont(ts, next, depth);
        Success((Node(NodeExprCont, depth, [op, rest]), last))
  }

  /** `production1`, `expr`: at least one token is required; the `op` is
      followed by an `expr'` child only when that call returns a node. */
  function ParseExpr(ts: seq<Token>, pos: nat, depth: nat): (r: ParseResult)
    requires pos <= |ts|
    ensures pos == |ts| ==> r == Failure(UnexpectedEnd(ExprStart, Prev(ts, pos)))
    ensures r.Success? ==>
              && pos < r.value.1 <= |ts| && AtStop(ts, r.value.1)
              && IsExpr(r.value.0, depth)
    ensures r.Failure? ==> !r.error.EmptyProgram?
    decreases |ts| - pos, 3
  {
    if pos == |ts| then
      Failure(UnexpectedEnd(ExprStart, Prev(ts, pos)))
    else
      var (op, next) :- ParseOp(ts, pos, depth);
      if next < |ts| then
        var (cont, last) :- ParseExprCont(ts, next, depth);
        if cont != Nil then Success((Node(NodeExpr, depth, [op, cont]), last))
        else Success((Node(NodeExpr, depth, [op]), last))
      else
        Success((Node(NodeExpr, depth, [op]), next))
  }

  /** The tree `parse` returns: a `start` root at depth 0 over one `expr`
      at depth 1. */
  predicate IsStart(t: Tree) {
    && t.Node? && t.sym == NodeStart && t.depth == 0 && |t.children| == 1
    && IsExpr(t.children[0], 1)
  }

  /** `parse`, as written: an empty list is fatal; otherwise the root holds
      the `expr` parsed from the first token, and whatever tokens that
      `expr` leaves unconsumed are never looked at. */
  function Parse(ts: seq<Token>): (r: Result<Tree, ParseError>)
    ensures r == Failure(EmptyProgram) <==> ts == []
    ensures r.Success? ==> IsStart(r.value)
  {
    if ts == [] then Failure(EmptyProgram)
    else
      var (expr, _) :- ParseExpr(ts, 0, 1);
      Success(Node(NodeStart, 0, [expr]))
  }

  /** `parse` with the missing end-of-input check added: a token left over
      after the top-level `expr` can only be a `]`, and is reported as one
      without a matching `[`. */
  function ParseAll(ts: seq<Token>): (r: Result<Tree, ParseError>)
    ensures r == Failure(EmptyProgram) <==> ts == []
    ensures r.Success? ==> IsStart(r.value)
  {
    if ts == [] then Failure(EmptyProgram)
    else
      var (expr, next) :- ParseExpr(ts, 0, 1);
      if next < |ts| then Failure(NoMatchingOpen(ts[next]))
      else Success(Node(NodeStart, 0, [expr]))
  }
}
