/** Bracket nesting over a stretch `ts[a..b]` of a token list, stated by
    counting, independently of the parser. */
module Brackets {
  import opened Lexer

  /** What one token does to the number of open loops. */
  function Delta(k: Kind): int {
    if k == JumpForward then 1 else if k == JumpBackward then -1 else 0
  }

  /** Number of `[` minus number of `]` in `ts[a..b]`. */
  function Net(ts: seq<Token>, a: nat, b: nat): int
    requires a <= b <= |ts|
    decreases b - a
  {
    if a == b then 0 else Net(ts, a, b - 1) + Delta(ts[b - 1].kind)
  }

  /** Every `]` in `ts[a..b]` closes a `[` opened inside it, and every `[` is closed. */
  predicate Balanced(ts: seq<Token>, a: nat, b: nat) {
    && a <= b <= |ts|
    && Net(ts, a, b) == 0
    && forall j :: a <= j <= b ==> Net(ts, a, j) >= 0
  }

  /** No `]` in `ts[a..b]` directly follows a `[` of the same stretch: no `[]`. */
  predicate NoEmptyLoop(ts: seq<Token>, a: nat, b: nat) {
    && a <= b <= |ts|
    && forall j :: a < j < b ==> ts[j].kind == JumpBackward ==> ts[j - 1].kind != JumpForward
  }

  /** The stretch is a sequence of commands and properly nested, non-empty loops. */
  predicate WellNested(ts: seq<Token>, a: nat, b: nat) {
    Balanced(ts, a, b) && NoEmptyLoop(ts, a, b)
  }

  lemma {:induction false} NetSplit(ts: seq<Token>, a: nat, b: nat, c: nat)
    requires a <= b <= c <= |ts|
    ensures Net(ts, a, c) == Net(ts, a, b) + Net(ts, b, c)
    decreases c - b
  {
    if b < c {
      NetSplit(ts, a, b, c - 1);
    }
  }

  /** A non-empty balanced stretch opens with something other than `]`. */
  lemma FirstNotClose(ts: seq<Token>, a: nat, b: nat)
    requires Balanced(ts, a, b) && a < b
    ensures ts[a].kind != JumpBackward
  {
    assert Net(ts, a, a + 1) >= 0;
  }

  /** A non-empty balanced stretch ends with something other than `[`. */
  lemma LastNotOpen(ts: seq<Token>, a: nat, b: nat)
    requires Balanced(ts, a, b) && a < b
    ensures ts[b - 1].kind != JumpForward
  {
    assert Net(ts, a, b - 1) >= 0;
  }

  /** A command on its own is well nested. */
  lemma CommandWellNested(ts: seq<Token>, a: nat)
    requires a < |ts| && ts[a].kind != JumpForward && ts[a].kind != JumpBackward
    ensures WellNested(ts, a, a + 1)
  {
    assert Net(ts, a, a + 1) == 0;
  }

  /** Two well-nested stretches side by side form one. */
  lemma Join(ts: seq<Token>, a: nat, b: nat, c: nat)
    requires WellNested(ts, a, b) && WellNested(ts, b, c)
    ensures WellNested(ts, a, c)
  {
    forall j | b <= j <= c ensures Net(ts, a, j) >= 0 {
      NetSplit(ts, a, b, j);
    }
    NetSplit(ts, a, b, c);
    if a < b < c {
      FirstNotClose(ts, b, c);
    }
  }

  /** Removing a balanced front from a well-nested stretch leaves one. */
  lemma DropBalancedPrefix(ts: seq<Token>, a: nat, b: nat, c: nat)
    requires WellNested(ts, a, c) && Balanced(ts, a, b) && b <= c
    ensures WellNested(ts, b, c)
  {
    forall j | b <= j <= c ensures Net(ts, b, j) >= 0 {
      NetSplit(ts, a, b, j);
    }
    NetSplit(ts, a, b, c);
  }

  /** `[`, a non-empty well-nested body, `]`: a well-nested stretch. */
  lemma Wrap(ts: seq<Token>, a: nat, q: nat)
    requires a + 1 < q < |ts|
    requires ts[a].kind == JumpForward && ts[q].kind == JumpBackward
    requires WellNested(ts, a + 1, q)
    ensures WellNested(ts, a, q + 1)
  {
    forall j | a + 1 <= j <= q ensures Net(ts, a, j) == 1 + Net(ts, a + 1, j) {
      NetSplit(ts, a, a + 1, j);
    }
    assert Net(ts, a, q + 1) == Net(ts, a, q) - 1;
    FirstNotClose(ts, a + 1, q);
    LastNotOpen(ts, a + 1, q);
  }

  /** Scanning on from `i`, where the `[` at `a` is still open, finds the `]`
      that closes it. */
  lemma {:induction false} FindCloseFrom(ts: seq<Token>, a: nat, b: nat, i: nat) returns (q: nat)
    requires Balanced(ts, a, b) && a < i <= b
    requires forall j :: a < j <= i ==> Net(ts, a, j) > 0
    ensures i <= q < b && ts[q].kind == JumpBackward
    ensures Net(ts, a, q) == 1 && Net(ts, a, q + 1) == 0
    ensures forall j :: a < j <= q ==> Net(ts, a, j) > 0
    decreases b - i
  {
    assert i < b;
    assert Net(ts, a, i + 1) == Net(ts, a, i) + Delta(ts[i].kind);
    if Net(ts, a, i + 1) == 0 {
      q := i;
    } else {
      q := FindCloseFrom(ts, a, b, i + 1);
    }
  }

  /** In a balanced stretch opening with `[`, that `[` has a matching `]`
      splitting the rest into a balanced body and a balanced remainder. */
  lemma FindClose(ts: seq<Token>, a: nat, b: nat) returns (q: nat)
    requires Balanced(ts, a, b) && a < b && ts[a].kind == JumpForward
    ensures a < q < b && ts[q].kind == JumpBackward
    ensures Balanced(ts, a + 1, q) && Balanced(ts, q + 1, b)
  {
    assert Net(ts, a, a + 1) == 1;
    q := FindCloseFrom(ts, a, b, a + 1);
    var body, rest := a + 1, q + 1;
    forall j | body <= j <= q ensures Net(ts, body, j) >= 0 {
      NetSplit(ts, a, body, j);
    }
    NetSplit(ts, a, body, q);
    forall j | rest <= j <= b ensures Net(ts, rest, j) >= 0 {
      NetSplit(ts, a, rest, j);
    }
    NetSplit(ts, a, rest, b);
  }

  /** Appending tokens does not change the count of an earlier stretch. */
  lemma {:induction false} NetExtend(ts: seq<Token>, u: seq<Token>, a: nat, b: nat)
    requires a <= b <= |ts|
    ensures Net(ts + u, a, b) == Net(ts, a, b)
    decreases b - a
  {
    if a < b {
      NetExtend(ts, u, a, b - 1);
      assert (ts + u)[b - 1] == ts[b - 1];
    }
  }

  /** Appending tokens leaves a well-nested stretch of the front well nested. */
  lemma WellNestedExtend(ts: seq<Token>, u: seq<Token>, a: nat, b: nat)
    requires WellNested(ts, a, b)
    ensures WellNested(ts + u, a, b)
  {
    forall j | a <= j <= b ensures Net(ts + u, a, j) == Net(ts, a, j) {
      NetExtend(ts, u, a, j);
    }
    forall j | a <= j < b ensures (ts + u)[j] == ts[j] {
    }
  }

  /** A stretch of commands only is well nested. */
  lemma {:induction false} CommandsWellNested(ts: seq<Token>, a: nat, b: nat)
    requires a <= b <= |ts|
    requires forall k :: a <= k < b ==> ts[k].kind != JumpForward && ts[k].kind != JumpBackward
    ensures WellNested(ts, a, b)
    decreases b - a
  {
    if a < b {
      CommandsWellNested(ts, a, b - 1);
      CommandWellNested(ts, b - 1);
      Join(ts, a, b - 1, b);
    }
  }
}
