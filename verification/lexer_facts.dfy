/** What `tokenize` computes, stated against definitions that do not follow
    its loop: where each lexeme sits in the input, and its line and column
    counted from the text before it. */
module LexerFacts {
  import opened Lexer

  /** The row counter before `s[i]` is read: one more than the newlines
      before it (see `RowCountsNewlines`). */
  function Row(s: seq<char>, i: nat): nat
    requires i <= |s|
  {
    if i == 0 then 1
    else Row(s, i - 1) + (if s[i - 1] == '\n' then 1 else 0)
  }

  lemma {:induction false} RowCountsNewlines(s: seq<char>, i: nat)
    requires i <= |s|
    ensures Row(s, i) == 1 + multiset(s[..i])['\n']
  {
    if i > 0 {
      RowCountsNewlines(s, i - 1);
      assert s[..i] == s[..i - 1] + [s[i - 1]];
    }
  }

  /** Index of the first character of the line that holds index `i`: just
      after the last newline before `i`, or 0 on the first line. */
  function LineStart(s: seq<char>, i: nat): (r: nat)
    requires i <= |s|
    ensures r <= i
    ensures r == 0 || s[r - 1] == '\n'
    ensures forall j :: r <= j < i ==> s[j] != '\n'
  {
    if i == 0 then 0
    else if s[i - 1] == '\n' then i
    else LineStart(s, i - 1)
  }

  /** The column counter before `s[i]` is read. On the first line it is the
      1-based offset; on every later line it is one more, because the reset
      to 1 is followed by the increment every character gets. */
  function Col(s: seq<char>, i: nat): nat
    requires i <= |s|
  {
    i - LineStart(s, i) + (if LineStart(s, i) == 0 then 1 else 2)
  }

  /** Indices of the lexeme characters of `s` from `i` on, in input order. */
  function LexemeIndices(s: seq<char>, i: nat): (r: seq<nat>)
    requires i <= |s|
    ensures forall k :: 0 <= k < |r| ==> i <= r[k] < |s| && IsLexeme(s[r[k]])
    ensures forall k, l :: 0 <= k < l < |r| ==> r[k] < r[l]
    decreases |s| - i
  {
    if i == |s| then []
    else if IsLexeme(s[i]) then [i] + LexemeIndices(s, i + 1)
    else LexemeIndices(s, i + 1)
  }

  /** No lexeme is skipped: every lexeme index from `i` on is listed. */
  lemma {:induction false} LexemeIndicesComplete(s: seq<char>, i: nat)
    requires i <= |s|
    ensures forall j :: i <= j < |s| && IsLexeme(s[j]) ==> j in LexemeIndices(s, i)
    decreases |s| - i
  {
    if i < |s| {
      LexemeIndicesComplete(s, i + 1);
    }
  }

  /** The token that the lexeme at index `i` should become. */
  function TokenAt(s: seq<char>, i: nat): Token
    requires i < |s| && IsLexeme(s[i])
  {
    Token(KindOf(s[i]), Position(U32(Row(s, i)), U32(Col(s, i))))
  }

  /** Lexicographic order on (row, column). */
  predicate Before(p: Position, q: Position) {
    p.row < q.row || (p.row == q.row && p.col < q.col)
  }

  /** The lexeme characters of `s`, comments removed. */
  function Strip(s: seq<char>): (r: seq<char>)
    ensures forall k :: 0 <= k < |r| ==> IsLexeme(r[k])
  {
    if s == [] then []
    else if IsLexeme(s[0]) then [s[0]] + Strip(s[1..])
    else Strip(s[1..])
  }

  /** Writing tokens back out through `tokenString`. */
  function Spell(ts: seq<Token>): (r: seq<char>)
    ensures |r| == |ts|
    ensures forall k :: 0 <= k < |ts| ==> r[k] == TokenString(ts[k].kind)
  {
    seq(|ts|, k requires 0 <= k < |ts| => TokenString(ts[k].kind))
  }

  function Kinds(ts: seq<Token>): (r: seq<Kind>)
    ensures |r| == |ts|
    ensures forall k :: 0 <= k < |ts| ==> r[k] == ts[k].kind
  {
    seq(|ts|, k requires 0 <= k < |ts| => ts[k].kind)
  }

  /** `tokenString[k]` is the one character `tokenize` maps to `k`, and
      every lexeme character is `tokenString` of its kind. */
  lemma TokenStringIsLexeme(k: Kind)
    ensures IsLexeme(TokenString(k))
    ensures KindOf(TokenString(k)) == k
    ensures forall c :: IsLexeme(c) && KindOf(c) == k ==> c == TokenString(k)
  {
  }

  /** Tokenizing the one-character string `tokenString[k]` yields one token
      of kind `k` at line 1, column 1. */
  lemma TokenizeTokenString(k: Kind)
    ensures Tokenize([TokenString(k)]) == [Token(k, Position(1, 1))]
  {
    TokenStringIsLexeme(k);
  }

  /** How the two counters change over one character. */
  lemma CounterStep(s: seq<char>, i: nat)
    requires i < |s|
    ensures Row(s, i + 1) == Row(s, i) + (if s[i] == '\n' then 1 else 0)
    ensures Col(s, i + 1) == if s[i] == '\n' then 2 else Col(s, i) + 1
  {
  }

  lemma CountersStart(s: seq<char>)
    ensures Row(s, 0) == 1 && Col(s, 0) == 1
  {
  }

  /** `TokenAt` of each index, in order. */
  function TokensAt(s: seq<char>, idx: seq<nat>): (r: seq<Token>)
    requires forall k :: 0 <= k < |idx| ==> idx[k] < |s| && IsLexeme(s[idx[k]])
    ensures |r| == |idx|
    ensures forall k :: 0 <= k < |idx| ==> r[k] == TokenAt(s, idx[k])
  {
    seq(|idx|, k requires 0 <= k < |idx| => TokenAt(s, idx[k]))
  }

  /** A lexeme adds its `TokenAt` in front of what the rest emits. */
  lemma LexemeStep(s: seq<char>, i: nat)
    requires i < |s| && IsLexeme(s[i])
    requires LexFrom(s, i + 1, Row(s, i + 1), Col(s, i + 1)) == TokensAt(s, LexemeIndices(s, i + 1))
    ensures LexFrom(s, i, Row(s, i), Col(s, i)) == TokensAt(s, LexemeIndices(s, i))
  {
    CounterStep(s, i);
    var restIdx := LexemeIndices(s, i + 1);
    var rest := TokensAt(s, restIdx);
    assert LexFrom(s, i, Row(s, i), Col(s, i))
        == [TokenAt(s, i)] + LexFrom(s, i + 1, Row(s, i), Col(s, i) + 1);
    assert LexFrom(s, i + 1, Row(s, i), Col(s, i) + 1) == rest;
    assert LexemeIndices(s, i) == [i] + restIdx;
    assert TokensAt(s, [i] + restIdx) == [TokenAt(s, i)] + rest;
  }

  /** Any other character emits nothing and only moves the counters. */
  lemma SkipStep(s: seq<char>, i: nat)
    requires i < |s| && !IsLexeme(s[i])
    requires LexFrom(s, i + 1, Row(s, i + 1), Col(s, i + 1)) == TokensAt(s, LexemeIndices(s, i + 1))
    ensures LexFrom(s, i, Row(s, i), Col(s, i)) == TokensAt(s, LexemeIndices(s, i))
  {
    CounterStep(s, i);
  }

  /** The loop from index `i`, entered with the counters the text before `i`
      determines, emits exactly `TokenAt` of each later lexeme, in order. */
  lemma {:induction false} LexFromMatches(s: seq<char>, i: nat)
    requires i <= |s|
    ensures LexFrom(s, i, Row(s, i), Col(s, i)) == TokensAt(s, LexemeIndices(s, i))
    decreases |s| - i
  {
    if i < |s| {
      LexFromMatches(s, i + 1);
      if IsLexeme(s[i]) {
        LexemeStep(s, i);
      } else {
        SkipStep(s, i);
      }
    }
  }

  /** One token per lexeme character, in input order, each with the kind of
      its character and the row and column counted from the text before it;
      every other character, newline included, emits nothing. */
  lemma TokenizeMatches(s: seq<char>)
    ensures var ts := Tokenize(s);
            var idx := LexemeIndices(s, 0);
            |ts| == |idx| && forall k :: 0 <= k < |ts| ==> ts[k] == TokenAt(s, idx[k])
  {
    CountersStart(s);
    LexFromMatches(s, 0);
  }

  lemma {:induction false} SpellLexFrom(s: seq<char>, i: nat, row: nat, col: nat)
    requires i <= |s|
    ensures Spell(LexFrom(s, i, row, col)) == Strip(s[i..])
    decreases |s| - i
  {
    if i < |s| {
      assert s[i..][1..] == s[i + 1..];
      if IsLexeme(s[i]) {
        SpellLexFrom(s, i + 1, row, col + 1);
        assert Spell(LexFrom(s, i, row, col))
            == [TokenString(KindOf(s[i]))] + Spell(LexFrom(s, i + 1, row, col + 1));
      } else if s[i] == '\n' {
        SpellLexFrom(s, i + 1, row + 1, 2);
      } else {
        SpellLexFrom(s, i + 1, row, col + 1);
      }
    }
  }

  /** Spelling the tokens back out gives the input with every comment
      character removed. */
  lemma SpellTokenize(s: seq<char>)
    ensures Spell(Tokenize(s)) == Strip(s)
  {
    SpellLexFrom(s, 0, 1, 1);
    assert s[0..] == s;
  }

  lemma {:induction false} StripLexemes(s: seq<char>)
    requires forall k :: 0 <= k < |s| ==> IsLexeme(s[k])
    ensures Strip(s) == s
  {
    if s != [] {
      StripLexemes(s[1..]);
    }
  }

  /** Spelling a token list and tokenizing the text gives back its kinds. */
  lemma TokenizeSpell(ts: seq<Token>)
    ensures Kinds(Tokenize(Spell(ts))) == Kinds(ts)
  {
    var s := Spell(ts);
    forall k | 0 <= k < |s| ensures IsLexeme(s[k]) {
      TokenStringIsLexeme(ts[k].kind);
    }
    StripLexemes(s);
    SpellTokenize(s);
    var us := Tokenize(s);
    assert Spell(us) == s;
    forall k | 0 <= k < |ts| ensures us[k].kind == ts[k].kind {
      TokenStringIsLexeme(us[k].kind);
      TokenStringIsLexeme(ts[k].kind);
    }
  }

  /** Neither counter outruns the number of characters read. */
  lemma {:induction false} CountersBounded(s: seq<char>, i: nat)
    requires i <= |s|
    ensures Row(s, i) <= i + 1 && 1 <= Col(s, i) <= i + 1
  {
    if i > 0 {
      CountersBounded(s, i - 1);
      CounterStep(s, i - 1);
    }
  }

  /** Unwrapped counters strictly increase from one character to any later one. */
  lemma {:induction false} CountersIncrease(s: seq<char>, i: nat, j: nat)
    requires i < j <= |s|
    ensures Before(Position(Row(s, i), Col(s, i)), Position(Row(s, j), Col(s, j)))
    decreases j - i
  {
    CounterStep(s, j - 1);
    if i < j - 1 {
      CountersIncrease(s, i, j - 1);
    }
  }

  /** Below 2^32 characters the stored position is the counters' value. */
  lemma StoredPositionUnwrapped(s: seq<char>, i: nat)
    requires |s| < WordModulus && i < |s| && IsLexeme(s[i])
    ensures TokenAt(s, i).pos == Position(Row(s, i), Col(s, i))
  {
    CountersBounded(s, i);
    NoWrapBelowModulus(Row(s, i));
    NoWrapBelowModulus(Col(s, i));
  }

  lemma NoWrapBelowModulus(n: nat)
    requires n < WordModulus
    ensures U32(n) == n
  {
  }

  /** Token positions strictly increase in (row, column) order along the
      list, as long as the counters have not wrapped. */
  lemma PositionsIncrease(s: seq<char>)
    requires |s| < WordModulus
    ensures var ts := Tokenize(s);
            forall k, l :: 0 <= k < l < |ts| ==> Before(ts[k].pos, ts[l].pos)
  {
    var ts := Tokenize(s);
    var idx := LexemeIndices(s, 0);
    TokenizeMatches(s);
    forall k, l | 0 <= k < l < |ts| ensures Before(ts[k].pos, ts[l].pos) {
      var i, j := idx[k], idx[l];
      assert ts[k] == TokenAt(s, i) && ts[l] == TokenAt(s, j);
      StoredPositionUnwrapped(s, i);
      StoredPositionUnwrapped(s, j);
      CountersIncrease(s, i, j);
    }
  }

  /** The row stored in a token is one more than the newlines before its
      character, and the column restarts at 2 after each newline. */
  lemma TokenRowAndColumn(s: seq<char>, k: nat)
    requires k < |LexemeIndices(s, 0)|
    ensures k < |Tokenize(s)|
    ensures var i := LexemeIndices(s, 0)[k];
            var t := Tokenize(s)[k];
            && t.pos.row == U32(1 + multiset(s[..i])['\n'])
            && (i > 0 && s[i - 1] == '\n' ==> t.pos.col == 2)
            && ((forall j :: 0 <= j < i ==> s[j] != '\n') ==> t.pos.col == U32(i + 1))
  {
    TokenizeMatches(s);
    RowCountsNewlines(s, LexemeIndices(s, 0)[k]);
  }

  /** The as-written loop, once a token exists, yields the same nodes as the
      corrected one; the tail links to itself exactly when the last
      character read was a newline. */
  lemma {:induction false} ScanAfterFirstToken(s: seq<char>, i: nat, row: nat, col: nat,
                                               acc: seq<Token>, selfLink: bool)
    requires i <= |s| && acc != []
    ensures ScanAsWritten(s, i, row, col, acc, selfLink)
         == Stream(acc + LexFrom(s, i, row, col), if i < |s| then s[|s| - 1] == '\n' else selfLink)
    decreases |s| - i
  {
    if i < |s| {
      if IsLexeme(s[i]) {
        var t := Token(KindOf(s[i]), Position(U32(row), U32(col)));
        ScanAfterFirstToken(s, i + 1, row, col + 1, acc + [t], false);
        assert acc + [t] + LexFrom(s, i + 1, row, col + 1) == acc + ([t] + LexFrom(s, i + 1, row, col + 1));
      } else if s[i] == '\n' {
        ScanAfterFirstToken(s, i + 1, row + 1, 2, acc, true);
      } else {
        ScanAfterFirstToken(s, i + 1, row, col + 1, acc, false);
      }
    }
  }

  /** The source's list crashes on a leading non-lexeme character and
      otherwise holds the corrected tokens, with the last node linked to
      itself when the input ends in a newline. */
  lemma AsWrittenVersusTokenize(s: seq<char>)
    ensures TokenizeAsWritten(s)
         == if |s| > 0 && !IsLexeme(s[0]) then NullDeref
            else Stream(Tokenize(s), |s| > 0 && s[|s| - 1] == '\n')
  {
    if |s| > 0 && IsLexeme(s[0]) {
      var t := Token(KindOf(s[0]), Position(U32(1), U32(1)));
      ScanAfterFirstToken(s, 1, 1, 2, [] + [t], false);
    }
  }

  /** Finding: a file that starts with a comment character crashes. */
  lemma LeadingCommentCrashes()
    ensures TokenizeAsWritten("a+") == NullDeref
    ensures Tokenize("a+") == [Token(Increment, Position(1, 2))]
  {
  }

  /** Finding: a file that ends in a newline leaves its last node linked to
      itself, so a walk along `next` never reaches NULL. */
  lemma TrailingNewlineLinksTail()
    ensures TokenizeAsWritten("+\n") == Stream([Token(Increment, Position(1, 1))], true)
    ensures Tokenize("+\n") == [Token(Increment, Position(1, 1))]
  {
  }

  /** Input `+a+` gives two Increment tokens; the `a` only moves the column. */
  lemma CommentIgnored()
    ensures Tokenize("+a+") == [Token(Increment, Position(1, 1)), Token(Increment, Position(1, 3))]
  {
  }

  /** The first character of the second line gets column 2. */
  lemma SecondLineStartsAtColumnTwo()
    ensures Tokenize("+\n+") == [Token(Increment, Position(1, 1)), Token(Increment, Position(2, 2))]
  {
  }
}
