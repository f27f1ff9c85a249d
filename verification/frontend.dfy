/** The two stages run back to back, as compile.c runs them: the source
    characters are tokenized and the token list is parsed; beside it, the
    same pipeline with the parser's end-of-input check added. */
module Frontend {
  import opened Wrappers
  import opened Lexer
  import opened LexerFacts
  import opened Brackets
  import opened Parser
  import opened ParserFacts

  /** `tokenize()` then `parse()`, as the driver calls them. */
  function Compile(src: seq<char>): (r: Result<Tree, ParseError>)
    ensures r == Failure(EmptyProgram) <==> forall j :: 0 <= j < |src| ==> !IsLexeme(src[j])
    ensures r.Success? ==> IsStart(r.value)
  {
    Parse(Tokenize(src))
  }

  /** The driver accepts a file exactly when some non-empty prefix of its
      tokens is well nested and followed by the end or a `]`; the tokens
      after that prefix are never looked at. */
  lemma CompileSucceedsIff(src: seq<char>)
    ensures var ts := Tokenize(src);
            Compile(src).Success? <==> exists p :: AcceptedPrefix(ts, p)
  {
    ParseSucceedsIff(Tokenize(src));
  }

  /** The leaves of the tree the driver builds, in pre-order, spell a
      non-empty prefix of the file's lexemes. */
  lemma CompileLeavesSpellPrefix(src: seq<char>)
    requires Compile(src).Success?
    ensures var f := Frontier(Compile(src).value);
            var lexemes := Strip(src);
            && 0 < |f| <= |lexemes|
            && forall k :: 0 <= k < |f| ==>
                 f[k].Node? && f[k].sym == TerminalOf(KindOf(lexemes[k]))
  {
    var ts := Tokenize(src);
    var f := Frontier(Compile(src).value);
    ParseFrontier(ts);
    var p :| 0 < p <= |ts| && FrontierMatches(f, ts, 0, p, 1);
    SpellTokenize(src);
    forall k | 0 <= k < |f| ensures f[k].sym == TerminalOf(KindOf(Strip(src)[k])) {
      assert Strip(src)[k] == TokenString(ts[k].kind);
      TokenStringIsLexeme(ts[k].kind);
    }
  }

  /** The pipeline with the end-of-input check in place. */
  function CompileCorrected(src: seq<char>): (r: Result<Tree, ParseError>)
    ensures r == Failure(EmptyProgram) <==> forall j :: 0 <= j < |src| ==> !IsLexeme(src[j])
    ensures r.Success? ==> IsStart(r.value)
    ensures r.Success? ==> r == Compile(src)
  {
    ParseAll(Tokenize(src))
  }

  /** With the check, a file is accepted exactly when its tokens are
      balanced and contain no `[]`; comments play no part. */
  lemma CompileCorrectedSucceedsIff(src: seq<char>)
    ensures var ts := Tokenize(src);
            CompileCorrected(src).Success? <==> ts != [] && WellNested(ts, 0, |ts|)
  {
    ParseAllSucceedsIff(Tokenize(src));
  }

  /** With the check, the leaves of an accepted file's tree, in pre-order,
      are all its lexemes, in source order. */
  lemma CompileCorrectedLeavesSpellSource(src: seq<char>)
    requires CompileCorrected(src).Success?
    ensures var f := Frontier(CompileCorrected(src).value);
            var lexemes := Strip(src);
            && |f| == |lexemes|
            && forall k :: 0 <= k < |f| ==>
                 f[k].Node? && f[k].sym == TerminalOf(KindOf(lexemes[k]))
  {
    var ts := Tokenize(src);
    var f := Frontier(CompileCorrected(src).value);
    ParseAllFrontier(ts);
    SpellTokenize(src);
    forall k | 0 <= k < |f| ensures f[k].sym == TerminalOf(KindOf(Strip(src)[k])) {
      assert Strip(src)[k] == TokenString(ts[k].kind);
      TokenStringIsLexeme(ts[k].kind);
    }
  }

  // ---- Concrete runs ----

  /** The empty file is the fatal "no instructions" error. */
  lemma EmptyFileRejected()
    ensures Compile("") == Failure(EmptyProgram)
  {
  }

  /** A lone `]` has no matching `[`, reported at row 1, column 1. */
  lemma StrayCloser()
    ensures Compile("]") == Failure(NoMatchingOpen(Token(JumpBackward, Position(1, 1))))
  {
    assert Tokenize("]") == [Token(JumpBackward, Position(1, 1))];
  }

  /** `[+` misses its `]`, and the error names the `+`, the last token read. */
  lemma UnterminatedLoop()
    ensures Compile("[+") == Failure(UnexpectedEnd(Close, Some(Token(Increment, Position(1, 2)))))
  {
    assert Tokenize("[+") == [Token(JumpForward, Position(1, 1)), Token(Increment, Position(1, 2))];
  }

  /** `[]` is rejected: its body must hold an `op`, and `]` cannot start one. */
  lemma EmptyLoopRejected()
    ensures Compile("[]") == Failure(NoMatchingOpen(Token(JumpBackward, Position(1, 2))))
  {
    assert Tokenize("[]") == [Token(JumpForward, Position(1, 1)), Token(JumpBackward, Position(1, 2))];
  }

  /** `[-]`: a loop at depth 1 whose body sits at depth 2. */
  lemma LoopTree()
    ensures Compile("[-]") == Success(
      Node(NodeStart, 0, [
        Node(NodeExpr, 1, [
          Node(NodeOp, 1, [
            Node(NodeLoop, 1, [
              Leaf(NodeJumpForward, 1),
              Node(NodeExpr, 2, [Node(NodeOp, 2, [Leaf(NodeDecrement, 2)])]),
              Leaf(NodeJumpBackward, 1)])])])]))
  {
    assert Tokenize("[-]") == [Token(JumpForward, Position(1, 1)), Token(Decrement, Position(1, 2)),
                               Token(JumpBackward, Position(1, 3))];
  }

  /** `[+-]`: the `expr'` holding `-` keeps a NULL continuation slot, because
      a `]` remains after it. */
  lemma NullSlotBeforeCloser()
    ensures Compile("[+-]") == Success(
      Node(NodeStart, 0, [
        Node(NodeExpr, 1, [
          Node(NodeOp, 1, [
            Node(NodeLoop, 1, [
              Leaf(NodeJumpForward, 1),
              Node(NodeExpr, 2, [
                Node(NodeOp, 2, [Leaf(NodeIncrement, 2)]),
                Node(NodeExprCont, 2, [Node(NodeOp, 2, [Leaf(NodeDecrement, 2)]), Nil])]),
              Leaf(NodeJumpBackward, 1)])])])]))
  {
    assert Tokenize("[+-]") == [Token(JumpForward, Position(1, 1)), Token(Increment, Position(1, 2)),
                                Token(Decrement, Position(1, 3)), Token(JumpBackward, Position(1, 4))];
  }

  /** `+]+`: the driver as written returns the tree of `+` alone and drops
      `]+`; with the end-of-input check the stray `]` is reported. */
  lemma TrailingTokensDropped()
    ensures var ts := Tokenize("+]+");
            && Compile("+]+") == Success(Node(NodeStart, 0, [
                 Node(NodeExpr, 1, [Node(NodeOp, 1, [Leaf(NodeIncrement, 1)])])]))
            && CompileCorrected("+]+") == Failure(NoMatchingOpen(Token(JumpBackward, Position(1, 2))))
            && !WellNested(ts, 0, |ts|)
  {
    var ts := Tokenize("+]+");
    assert ts == [Token(Increment, Position(1, 1)), Token(JumpBackward, Position(1, 2)),
                  Token(Increment, Position(1, 3))];
    assert Net(ts, 0, 2) < 0;
  }

  // ---- The self-linked tail, as the parser walks it ----

  /** When the list as linked ends in a self-linked command, the parser
      never meets NULL: however many nodes `n` past the last one are
      walked, a well-nested program's `expr` reads every one of them, so
      the recursion of `expr'` does not end on the real list. */
  lemma SelfLinkedTailReadForever(src: seq<char>, n: nat)
    requires TokenizeAsWritten(src).Stream? && TokenizeAsWritten(src).tailLinksToSelf
    requires var ts := TokenizeAsWritten(src).tokens;
             ts != [] && WellNested(ts, 0, |ts|) && IsCommand(ts[|ts| - 1].kind)
    ensures var us := Walk(TokenizeAsWritten(src), n);
            && |us| == |TokenizeAsWritten(src).tokens| + n
            && ParseExpr(us, 0, 1).Success? && ParseExpr(us, 0, 1).value.1 == |us|
  {
    var st := TokenizeAsWritten(src);
    var ts := st.tokens;
    var us := Walk(st, n);
    var u := us[|ts|..];
    assert us == ts + u;
    WellNestedExtend(ts, u, 0, |ts|);
    CommandsWellNested(us, |ts|, |us|);
    Join(us, 0, |ts|, |us|);
    ExprComplete(us, 0, |us|, 1);
  }

  /** `+` followed by a newline: the list links `+` to itself. */
  lemma TrailingNewlineLoops(n: nat)
    ensures var us := Walk(TokenizeAsWritten("+\n"), n);
            |us| == n + 1 && ParseExpr(us, 0, 1).Success? && ParseExpr(us, 0, 1).value.1 == n + 1
  {
    TrailingNewlineLinksTail();
    var ts := [Token(Increment, Position(1, 1))];
    CommandWellNested(ts, 0);
    SelfLinkedTailReadForever("+\n", n);
  }
}
