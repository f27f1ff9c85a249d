/** The lexer of the translator: source characters to an ordered list of
    tokens, each tagged with the (row, column) at which it was read. */
module Lexer {
  import opened Wrappers

  /** Token kinds, in the order of the source's `Token` enumeration. */
  datatype Kind =
    | MoveLeft | MoveRight | Increment | Decrement
    | Output | Input | JumpForward | JumpBackward

  /** The row and column counters are `unsigned int`, so a stored position
      is the counter's value modulo 2^32. */
  const WordModulus: nat := 0x1_0000_0000

  function U32(n: nat): nat {
    n % WordModulus
  }

  datatype Position = Position(row: nat, col: nat)

  /** One node of the token list: its kind and where it was read. */
  datatype Token = Token(kind: Kind, pos: Position)

  /** The `tokenString` table: the lexeme that spells each kind. */
  function TokenString(k: Kind): char {
    match k
    case MoveLeft => '<'
    case MoveRight => '>'
    case Increment => '+'
    case Decrement => '-'
    case Output => '.'
    case Input => ','
    case JumpForward => '['
    case JumpBackward => ']'
  }

  /** The eight characters the `switch` of `tokenize` turns into tokens. */
  predicate IsLexeme(c: char) {
    || c == '<' || c == '>' || c == '+' || c == '-'
    || c == '.' || c == ',' || c == '[' || c == ']'
  }

  /** The kind `tokenize` gives a lexeme character. */
  function KindOf(c: char): (k: Kind)
    requires IsLexeme(c)
    ensures TokenString(k) == c
  {
    match c
    case '<' => MoveLeft
    case '>' => MoveRight
    case '+' => Increment
    case '-' => Decrement
    case '.' => Output
    case ',' => Input
    case '[' => JumpForward
    case ']' => JumpBackward
  }

  /** The tokenizer loop from index `i`, with `row` and `col` the values of
      the two counters before `s[i]` is read. A lexeme is stamped with the
      current counters; a newline bumps the row and resets the column to 1;
      after every character, ignored ones included, the column advances. */
  function LexFrom(s: seq<char>, i: nat, row: nat, col: nat): (r: seq<Token>)
    requires i <= |s|
    ensures |r| <= |s| - i
    ensures r == [] <==> forall j :: i <= j < |s| ==> !IsLexeme(s[j])
    decreases |s| - i
  {
    if i == |s| then []
    else if IsLexeme(s[i]) then
      [Token(KindOf(s[i]), Position(U32(row), U32(col)))] + LexFrom(s, i + 1, row, col + 1)
    else if s[i] == '\n' then
      LexFrom(s, i + 1, row + 1, 1 + 1)
    else
      LexFrom(s, i + 1, row, col + 1)
  }

  /** `tokenize`: the whole character stream, counters seeded at (1, 1).
      The result is empty (a NULL head) exactly when no lexeme occurs. */
  function Tokenize(s: seq<char>): (r: seq<Token>)
    ensures |r| <= |s|
    ensures r == [] <==> forall j :: 0 <= j < |s| ==> !IsLexeme(s[j])
  {
    LexFrom(s, 0, 1, 1)
  }

  /** The token list exactly as the source links it. `NullDeref` is the run
      that dereferences the still-NULL `newToken`; otherwise `tailLinksToSelf`
      says whether the last node's `next` points back at that node. */
  datatype TokenStream =
    | NullDeref
    | Stream(tokens: seq<Token>, tailLinksToSelf: bool)

  /** The tokenizer loop as written. `newToken` is NULL until the first
      lexeme and afterwards always the tail node; each character that is not
      a lexeme still runs `newToken->next = NULL`, and a newline, which
      leaves `ignore_char` at 0, then also runs `tail->next = newToken`,
      linking the tail to itself. */
  function ScanAsWritten(s: seq<char>, i: nat, row: nat, col: nat,
                         acc: seq<Token>, selfLink: bool): (r: TokenStream)
    requires i <= |s|
    ensures r.Stream? ==> |acc| <= |r.tokens| && r.tokens[..|acc|] == acc
    decreases |s| - i
  {
    if i == |s| then Stream(acc, selfLink)
    else if IsLexeme(s[i]) then
      var t := Token(KindOf(s[i]), Position(U32(row), U32(col)));
      ScanAsWritten(s, i + 1, row, col + 1, acc + [t], false)
    else if acc == [] then NullDeref
    else if s[i] == '\n' then ScanAsWritten(s, i + 1, row + 1, 1 + 1, acc, true)
    else ScanAsWritten(s, i + 1, row, col + 1, acc, false)
  }

  function TokenizeAsWritten(s: seq<char>): (r: TokenStream)
    ensures |s| > 0 && !IsLexeme(s[0]) ==> r == NullDeref
  {
    ScanAsWritten(s, 0, 1, 1, [], false)
  }

  /** The first `|tokens| + n` nodes met by following `next` from the head
      of a list as the source links it, or all of them if NULL comes
      first: past the last node a self-linked tail yields that node again. */
  function Walk(st: TokenStream, n: nat): (r: seq<Token>)
    requires st.Stream?
    ensures |st.tokens| <= |r| && r[..|st.tokens|] == st.tokens
    ensures |r| == if st.tailLinksToSelf && st.tokens != [] then |st.tokens| + n else |st.tokens|
    ensures forall k :: |st.tokens| <= k < |r| ==> r[k] == r[|st.tokens| - 1]
  {
    if st.tailLinksToSelf && st.tokens != [] then
      st.tokens + seq(n, _ => st.tokens[|st.tokens| - 1])
    else st.tokens
  }
}
