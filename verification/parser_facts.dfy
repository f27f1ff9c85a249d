/** What the parser accepts, what tree it builds for it, and which of its
    diagnostics can actually be reached from `parse`. */
module ParserFacts {
  import opened Wrappers
  import opened Lexer
  import opened Brackets
  import opened Parser

  // ---- Soundness: what a successful production consumed is well nested ----

  lemma {:induction false} OpSound(ts: seq<Token>, pos: nat, depth: nat)
    requires pos <= |ts| && ParseOp(ts, pos, depth).Success?
    ensures WellNested(ts, pos, ParseOp(ts, pos, depth).value.1)
    decreases |ts| - pos, 2
  {
    if ts[pos].kind == JumpForward {
      LoopSound(ts, pos, depth);
    } else {
      CommandWellNested(ts, pos);
    }
  }

  lemma {:induction false} LoopSound(ts: seq<Token>, pos: nat, depth: nat)
    requires pos <= |ts| && ParseLoop(ts, pos, depth).Success?
    ensures WellNested(ts, pos, ParseLoop(ts, pos, depth).value.1)
    decreases |ts| - pos, 1
  {
    var body := ParseExpr(ts, pos + 1, depth + 1);
    ExprSound(ts, pos + 1, depth + 1);
    Wrap(ts, pos, body.value.1);
  }

  lemma {:induction false} ExprContSound(ts: seq<Token>, pos: nat, depth: nat)
    requires pos <= |ts| && ParseExprCont(ts, pos, depth).Success?
    ensures WellNested(ts, pos, ParseExprCont(ts, pos, depth).value.1)
    decreases |ts| - pos, 3
  {
    if !AtStop(ts, pos) {
      OpSound(ts, pos, depth);
      var next := ParseOp(ts, pos, depth).value.1;
      if next < |ts| {
        ExprContSound(ts, next, depth);
        Join(ts, pos, next, ParseExprCont(ts, next, depth).value.1);
      }
    }
  }

  lemma {:induction false} ExprSound(ts: seq<Token>, pos: nat, depth: nat)
    requires pos <= |ts| && ParseExpr(ts, pos, depth).Success?
    ensures WellNested(ts, pos, ParseExpr(ts, pos, depth).value.1)
    decreases |ts| - pos, 3
  {
    OpSound(ts, pos, depth);
    var next := ParseOp(ts, pos, depth).value.1;
    if next < |ts| {
      ExprContSound(ts, next, depth);
      Join(ts, pos, next, ParseExprCont(ts, next, depth).value.1);
    }
  }

  // ---- Completeness: every well-nested stretch is parsed, to its end ----

  lemma {:induction false} OpComplete(ts: seq<Token>, pos: nat, p: nat, depth: nat)
    requires pos < p <= |ts| && WellNested(ts, pos, p)
    ensures ParseOp(ts, pos, depth).Success?
    ensures var next := ParseOp(ts, pos, depth).value.1;
            pos < next <= p && WellNested(ts, next, p)
    decreases p - pos, 1
  {
    FirstNotClose(ts, pos, p);
    if ts[pos].kind == JumpForward {
      var q := FindClose(ts, pos, p);
      assert q != pos + 1;
      ExprComplete(ts, pos + 1, q, depth + 1);
    } else {
      assert Net(ts, pos, pos + 1) == 0;
      DropBalancedPrefix(ts, pos, pos + 1, p);
    }
  }

  lemma {:induction false} ExprContComplete(ts: seq<Token>, pos: nat, p: nat, depth: nat)
    requires pos <= p <= |ts| && WellNested(ts, pos, p) && AtStop(ts, p)
    ensures ParseExprCont(ts, pos, depth).Success?
    ensures ParseExprCont(ts, pos, depth).value.1 == p
    decreases p - pos, 2
  {
    if pos < p {
      FirstNotClose(ts, pos, p);
      OpComplete(ts, pos, p, depth);
      var next := ParseOp(ts, pos, depth).value.1;
      if next < |ts| {
        ExprContComplete(ts, next, p, depth);
      }
    }
  }

  lemma {:induction false} ExprComplete(ts: seq<Token>, pos: nat, p: nat, depth: nat)
    requires pos < p <= |ts| && WellNested(ts, pos, p) && AtStop(ts, p)
    ensures ParseExpr(ts, pos, depth).Success?
    ensures ParseExpr(ts, pos, depth).value.1 == p
    decreases p - pos, 2
  {
    OpComplete(ts, pos, p, depth);
    var next := ParseOp(ts, pos, depth).value.1;
    if next < |ts| {
      ExprContComplete(ts, next, p, depth);
    }
  }

  /** `expr` succeeds from `pos` exactly when the tokens from `pos` up to the
      first place it may stop are well nested and not empty; it then stops
      there. */
  lemma ExprAccepts(ts: seq<Token>, pos: nat, p: nat, depth: nat)
    requires pos <= |ts|
    ensures ParseExpr(ts, pos, depth).Success? && ParseExpr(ts, pos, depth).value.1 == p
            <==> pos < p <= |ts| && AtStop(ts, p) && WellNested(ts, pos, p)
  {
    if pos < p <= |ts| && AtStop(ts, p) && WellNested(ts, pos, p) {
      ExprComplete(ts, pos, p, depth);
    }
    if ParseExpr(ts, pos, depth).Success? {
      ExprSound(ts, pos, depth);
    }
  }

  // ---- What `parse` accepts ----

  /** `ts[..p]` is what `parse` can consume: non-empty, well nested, and
      followed by the end or by a `]`. */
  predicate AcceptedPrefix(ts: seq<Token>, p: nat) {
    0 < p <= |ts| && AtStop(ts, p) && WellNested(ts, 0, p)
  }

  /** `parse` succeeds exactly when some prefix of the tokens is a
      well-nested program stopped by the end or a `]`; what follows that
      prefix is never examined. */
  lemma ParseSucceedsIff(ts: seq<Token>)
    ensures Parse(ts).Success? <==> exists p :: AcceptedPrefix(ts, p)
  {
    if Parse(ts).Success? {
      ExprSound(ts, 0, 1);
      assert AcceptedPrefix(ts, ParseExpr(ts, 0, 1).value.1);
    }
    if exists p :: AcceptedPrefix(ts, p) {
      var p :| AcceptedPrefix(ts, p);
      ExprComplete(ts, 0, p, 1);
    }
  }

  /** With the end-of-input check, parsing succeeds exactly when the whole
      token list is non-empty, balanced and free of `[]`. */
  lemma ParseAllSucceedsIff(ts: seq<Token>)
    ensures ParseAll(ts).Success? <==> ts != [] && WellNested(ts, 0, |ts|)
  {
    if ParseAll(ts).Success? {
      ExprSound(ts, 0, 1);
    }
    if ts != [] && WellNested(ts, 0, |ts|) {
      ExprComplete(ts, 0, |ts|, 1);
    }
  }

  /** The corrected parse accepts a list exactly when the as-written one
      accepts it and consumes all of it. */
  lemma ParseAllRefinesParse(ts: seq<Token>)
    ensures ParseAll(ts).Success? <==>
            Parse(ts).Success? && ParseExpr(ts, 0, 1).value.1 == |ts|
    ensures ParseAll(ts).Success? ==> ParseAll(ts) == Parse(ts)
  {
  }

  // ---- The tree against the tokens: leaves and depths ----

  /** The terminal nodes of a tree, in pre-order. */
  function Frontier(t: Tree): seq<Tree>
    decreases t, 1
  {
    match t
    case Nil => []
    case Node(sym, _, children) => if IsTerminal(sym) then [t] else FrontierOf(t, 0)
  }

  function FrontierOf(t: Tree, i: nat): seq<Tree>
    requires t.Node? && i <= |t.children|
    decreases t, 0, |t.children| - i
  {
    if i == |t.children| then []
    else Frontier(t.children[i]) + FrontierOf(t, i + 1)
  }

  /** The depth a terminal for `ts[j]` must have inside a production entered
      at `pos` with `depth`: one per `[` still open before it, where a `]`
      already counts as closing its own loop. */
  function DepthAt(ts: seq<Token>, pos: nat, depth: nat, j: nat): int
    requires pos <= j < |ts|
  {
    depth + Net(ts, pos, j) - (if ts[j].kind == JumpBackward then 1 else 0)
  }

  /** `f` is exactly one terminal per token of `ts[pos..p]`, of that token's
      kind and at the depth its nesting gives it. */
  predicate FrontierMatches(f: seq<Tree>, ts: seq<Token>, pos: nat, p: nat, depth: nat) {
    && pos <= p <= |ts| && |f| == p - pos
    && forall k :: 0 <= k < |f| ==>
         && f[k].Node? && f[k].children == []
         && f[k].sym == TerminalOf(ts[pos + k].kind)
         && f[k].depth as int == DepthAt(ts, pos, depth, pos + k)
  }

  lemma FrontierJoin(f1: seq<Tree>, f2: seq<Tree>, ts: seq<Token>, pos: nat, mid: nat, p: nat, depth: nat)
    requires FrontierMatches(f1, ts, pos, mid, depth) && FrontierMatches(f2, ts, mid, p, depth)
    requires Net(ts, pos, mid) == 0
    ensures FrontierMatches(f1 + f2, ts, pos, p, depth)
  {
    var f := f1 + f2;
    forall k | |f1| <= k < |f| ensures f[k].depth as int == DepthAt(ts, pos, depth, pos + k) {
      NetSplit(ts, pos, mid, pos + k);
      assert f[k] == f2[k - |f1|];
      assert mid + (k - |f1|) == pos + k;
    }
  }

  lemma FrontierWrap(f: seq<Tree>, ts: seq<Token>, pos: nat, q: nat, depth: nat)
    requires pos + 1 <= q < |ts| && ts[pos].kind == JumpForward && ts[q].kind == JumpBackward
    requires FrontierMatches(f, ts, pos + 1, q, depth + 1) && Net(ts, pos + 1, q) == 0
    ensures FrontierMatches([Leaf(NodeJumpForward, depth)] + f + [Leaf(NodeJumpBackward, depth)],
                            ts, pos, q + 1, depth)
  {
    var g := [Leaf(NodeJumpForward, depth)] + f + [Leaf(NodeJumpBackward, depth)];
    var body := pos + 1;
    forall k | 0 < k <= |f| ensures g[k].depth as int == DepthAt(ts, pos, depth, pos + k) {
      NetSplit(ts, pos, body, pos + k);
      assert g[k] == f[k - 1];
      assert body + (k - 1) == pos + k;
    }
    NetSplit(ts, pos, body, q);
  }

  lemma TwoChildFrontier(t: Tree)
    requires t.Node? && !IsTerminal(t.sym) && |t.children| == 2
    ensures Frontier(t) == Frontier(t.children[0]) + Frontier(t.children[1])
  {
    assert FrontierOf(t, 2) == [];
    assert FrontierOf(t, 1) == Frontier(t.children[1]);
  }

  lemma OneChildFrontier(t: Tree)
    requires t.Node? && !IsTerminal(t.sym) && |t.children| == 1
    ensures Frontier(t) == Frontier(t.children[0])
  {
    assert FrontierOf(t, 1) == [];
  }

  lemma ThreeChildFrontier(t: Tree)
    requires t.Node? && !IsTerminal(t.sym) && |t.children| == 3
    ensures Frontier(t) == Frontier(t.children[0]) + Frontier(t.children[1]) + Frontier(t.children[2])
  {
    assert FrontierOf(t, 3) == [];
    assert FrontierOf(t, 2) == Frontier(t.children[2]);
    assert FrontierOf(t, 1) == Frontier(t.children[1]) + Frontier(t.children[2]);
    assert FrontierOf(t, 0) == Frontier(t.children[0]) + (Frontier(t.children[1]) + Frontier(t.children[2]));
  }

  lemma {:induction false} OpFrontier(ts: seq<Token>, pos: nat, depth: nat)
    requires pos <= |ts| && ParseOp(ts, pos, depth).Success?
    ensures var (t, p) := ParseOp(ts, pos, depth).value;
            FrontierMatches(Frontier(t), ts, pos, p, depth)
    decreases |ts| - pos, 2
  {
    var t := ParseOp(ts, pos, depth).value.0;
    OneChildFrontier(t);
    if ts[pos].kind == JumpForward {
      LoopFrontier(ts, pos, depth);
    }
  }

  lemma {:induction false} LoopFrontier(ts: seq<Token>, pos: nat, depth: nat)
    requires pos <= |ts| && ParseLoop(ts, pos, depth).Success?
    ensures var (t, p) := ParseLoop(ts, pos, depth).value;
            FrontierMatches(Frontier(t), ts, pos, p, depth)
    decreases |ts| - pos, 1
  {
    var t := ParseLoop(ts, pos, depth).value.0;
    var (body, q) := ParseExpr(ts, pos + 1, depth + 1).value;
    ExprFrontier(ts, pos + 1, depth + 1);
    ExprSound(ts, pos + 1, depth + 1);
    ThreeChildFrontier(t);
    FrontierWrap(Frontier(body), ts, pos, q, depth);
  }

  lemma {:induction false} ExprContFrontier(ts: seq<Token>, pos: nat, depth: nat)
    requires pos <= |ts| && ParseExprCont(ts, pos, depth).Success?
    ensures var (t, p) := ParseExprCont(ts, pos, depth).value;
            FrontierMatches(Frontier(t), ts, pos, p, depth)
    decreases |ts| - pos, 3
  {
    if !AtStop(ts, pos) {
      var t := ParseExprCont(ts, pos, depth).value.0;
      var (op, next) := ParseOp(ts, pos, depth).value;
      OpFrontier(ts, pos, depth);
      OpSound(ts, pos, depth);
      if next < |ts| {
        var (rest, p) := ParseExprCont(ts, next, depth).value;
        ExprContFrontier(ts, next, depth);
        TwoChildFrontier(t);
        FrontierJoin(Frontier(op), Frontier(rest), ts, pos, next, p, depth);
      } else {
        OneChildFrontier(t);
      }
    }
  }

  lemma {:induction false} ExprFrontier(ts: seq<Token>, pos: nat, depth: nat)
    requires pos <= |ts| && ParseExpr(ts, pos, depth).Success?
    ensures var (t, p) := ParseExpr(ts, pos, depth).value;
            FrontierMatches(Frontier(t), ts, pos, p, depth)
    decreases |ts| - pos, 3
  {
    var t := ParseExpr(ts, pos, depth).value.0;
    var (op, next) := ParseOp(ts, pos, depth).value;
    OpFrontier(ts, pos, depth);
    OpSound(ts, pos, depth);
    if next < |ts| {
      var (cont, p) := ParseExprCont(ts, next, depth).value;
      ExprContFrontier(ts, next, depth);
      if cont != Nil {
        TwoChildFrontier(t);
        FrontierJoin(Frontier(op), Frontier(cont), ts, pos, next, p, depth);
      } else {
        OneChildFrontier(t);
      }
    } else {
      OneChildFrontier(t);
    }
  }

  /** The terminals of a tree `parse` builds, read in pre-order, are the
      tokens it consumed, in order, and each sits at depth 1 plus the number
      of `[` still open before it (a `]` at the depth of its `[`). */
  lemma ParseFrontier(ts: seq<Token>)
    requires Parse(ts).Success?
    ensures exists p :: 0 < p <= |ts| && FrontierMatches(Frontier(Parse(ts).value), ts, 0, p, 1)
  {
    var root := Parse(ts).value;
    ExprFrontier(ts, 0, 1);
    OneChildFrontier(root);
    assert 0 < ParseExpr(ts, 0, 1).value.1;
  }

  /** With the end-of-input check the terminals cover every token. */
  lemma ParseAllFrontier(ts: seq<Token>)
    requires ParseAll(ts).Success?
    ensures FrontierMatches(Frontier(ParseAll(ts).value), ts, 0, |ts|, 1)
  {
    ExprFrontier(ts, 0, 1);
    OneChildFrontier(ParseAll(ts).value);
  }

  // ---- The diagnostics `parse` can reach ----

  /** The errors that can reach the caller of `parse`: the empty list, an
      `expr` missing right after a final `[`, a `]` missing after the last
      token, or a `]` where an `op` must start. The end-of-input checks of
      `op` and `loop`, their NULL previous token, and the mismatch checks of
      `loop` are never reached. */
  predicate Reachable(ts: seq<Token>, e: ParseError) {
    || (e.EmptyProgram? && ts == [])
    || (e.UnexpectedEnd? && e.after.Some? && e.after.value in ts
        && (e.expected == Close || (e.expected == ExprStart && e.after.value.kind == JumpForward)))
    || (e.NoMatchingOpen? && e.at in ts && e.at.kind == JumpBackward)
  }

  lemma {:induction false} OpErrors(ts: seq<Token>, pos: nat, depth: nat)
    requires pos < |ts| && ParseOp(ts, pos, depth).Failure?
    ensures Reachable(ts, ParseOp(ts, pos, depth).error)
    decreases |ts| - pos, 2
  {
    if ts[pos].kind == JumpForward {
      LoopErrors(ts, pos, depth);
    }
  }

  lemma {:induction false} LoopErrors(ts: seq<Token>, pos: nat, depth: nat)
    requires pos < |ts| && ts[pos].kind == JumpForward && ParseLoop(ts, pos, depth).Failure?
    ensures Reachable(ts, ParseLoop(ts, pos, depth).error)
    decreases |ts| - pos, 1
  {
    if ParseExpr(ts, pos + 1, depth + 1).Failure? {
      ExprErrors(ts, pos + 1, depth + 1);
    }
  }

  lemma {:induction false} ExprContErrors(ts: seq<Token>, pos: nat, depth: nat)
    requires pos <= |ts| && ParseExprCont(ts, pos, depth).Failure?
    ensures Reachable(ts, ParseExprCont(ts, pos, depth).error)
    decreases |ts| - pos, 3
  {
    if ParseOp(ts, pos, depth).Failure? {
      OpErrors(ts, pos, depth);
    } else {
      ExprContErrors(ts, ParseOp(ts, pos, depth).value.1, depth);
    }
  }

  /** `expr` is entered at a token, or right after a `[`. */
  lemma {:induction false} ExprErrors(ts: seq<Token>, pos: nat, depth: nat)
    requires pos < |ts| || (0 < pos == |ts| && ts[pos - 1].kind == JumpForward)
    requires ParseExpr(ts, pos, depth).Failure?
    ensures Reachable(ts, ParseExpr(ts, pos, depth).error)
    decreases |ts| - pos, 3
  {
    if pos < |ts| {
      if ParseOp(ts, pos, depth).Failure? {
        OpErrors(ts, pos, depth);
      } else {
        ExprContErrors(ts, ParseOp(ts, pos, depth).value.1, depth);
      }
    }
  }

  /** Every error `parse` reports is one of the reachable kinds, and names a
      token of the list. */
  lemma ParseErrors(ts: seq<Token>)
    requires Parse(ts).Failure?
    ensures Reachable(ts, Parse(ts).error)
  {
    if ts != [] {
      ExprErrors(ts, 0, 1);
    }
  }
}
