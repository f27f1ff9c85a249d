# Brainfuck-to-C translator: lexer and parser

This project models the front half of a translator that turns Brainfuck
source into C. It covers two stages.

- The **lexer** `tokenize` turns the character stream into a linked list of
  tokens. Each token holds one of eight kinds and the (row, column) at which
  it was read.
- The **recursive-descent parser** `parse` / `production1`–`production4`
  turns that list into a syntax tree for this grammar:

```
start := expr
expr  := op expr'
expr' := op expr' | ε
op    := + | - | . | , | < | > | loop
loop  := [ expr ]
```

Every node records its nesting depth. Parsing stops at the first syntax error.

## How the model is built

- **Inputs and errors.** The input file is a `seq<char>`. Every fatal
  `exit` becomes a `Failure` that carries a typed `ParseError`, together with
  the token the diagnostic names.
- **The parser's cursor.** The globals `currTokenPtr` and `prevTokenPtr`
  become an explicit index into a `seq<Token>`. The four productions are
  mutually recursive functions. They terminate on (tokens left, production
  rank).
- **Wrap-around.** The tokenizer's row and column are `unsigned int`
  counters, so a stored position is the counter modulo 2^32.

### Modules

- `Wrappers`: the `Option` and `Result` types.
- `Lexer`:
  - `Tokenize`: the tokenizer with its two pointer defects removed.
  - `TokenizeAsWritten`: the list exactly as the source links it.
- `LexerFacts`: the tokens against independent definitions:
  - which characters are lexemes;
  - a row counted from the newlines before a character;
  - a column counted from the start of its line.
- `Parser`:
  - the four productions;
  - `Parse`, as written;
  - `ParseAll`, which adds the missing end-of-input check;
  - the grammar shape (`IsExpr`, `IsLoop`, …) that each production gives its node.
- `Brackets`: bracket balance defined by counting, independently of the
  parser. `WellNested` means balanced, with no `]` before its `[`, and no
  empty `[]`.
- `ParserFacts`:
  - soundness and completeness of the parser against `WellNested`;
  - the pre-order leaves of the tree against the consumed tokens, and their depths;
  - the errors `parse` can actually report.
- `Frontend`:
  - the two stages chained: `Compile` calls `parse` as compile.c does, and
    `CompileCorrected` calls `ParseAll`;
  - concrete runs;
  - what the parser does with the self-linked list.

### Where the code and the intended behaviour differ

The code is followed in each of these cases.

- **Columns.** A newline sets the column to 1, and then the unconditional
  increment runs. So the first character of every line after the first gets
  column 2, not 1.
- **Trailing tokens.** `parse` accepts a program that has tokens left after
  the top-level `expr`. For example, `+]+` parses as `+`. Bracket balance
  is therefore an if-and-only-if only for `ParseAll` and `CompileCorrected`.
- **An unterminated loop.** The "expected `]`" diagnostic names the last
  consumed token itself, not the position after it.
- **Depth.** The root `start` node is at depth 0, but `parse` enters
  `expr` at depth 1 (parser.h:80). So every top-level node sits at depth 1,
  and a leaf's depth is 1 plus the number of `[` still open before it, not
  that number alone.

## Model

| member | source | states |
|---|---|---|
| Lexer.KindOf | tokenizer.h:55-103 | each of the eight lexeme characters gets the kind that `tokenString` spells back as that same character |
| Lexer.LexFrom | tokenizer.h:52-131 | the loop from any index emits at most one token per remaining character, and none at all exactly when no lexeme remains |
| Lexer.Tokenize | tokenizer.h:47-134 | at most one token per input character; the list is empty (a NULL head) exactly when the input has no lexeme, the empty input included |
| Lexer.ScanAsWritten | tokenizer.h:52-131 | the as-written loop never drops or changes a node it has already linked: those nodes stay, unchanged, at the front of the list |
| Lexer.TokenizeAsWritten | tokenizer.h:112 | a first character that is not a lexeme dereferences the still-NULL `newToken` |
| LexerFacts.RowCountsNewlines | tokenizer.h:104-105 | the row counter before a character is 1 plus the number of newlines before it |
| LexerFacts.LineStart | tokenizer.h:104-106 | the start of a character's line is just after the last newline before it, or the beginning of the input |
| LexerFacts.LexemeIndices | tokenizer.h:55-110 | the positions of the lexeme characters, strictly increasing |
| LexerFacts.LexemeIndicesComplete | tokenizer.h:55-110 | no lexeme character is left out of that list |
| LexerFacts.TokenStringIsLexeme | tokenizer.h:17 | `tokenString` and the lexer's character-to-kind map are inverse bijections between the eight kinds and the eight lexemes |
| LexerFacts.TokenizeTokenString | tokenizer.h:56-103 | tokenizing the one-character string `tokenString[k]` gives exactly one token, of kind `k`, at (1, 1) |
| LexerFacts.CountersStart | tokenizer.h:50 | both counters start at 1 |
| LexerFacts.CounterStep | tokenizer.h:104-113 | a newline adds 1 to the row and makes the next column 2; any other character adds 1 to the column |
| LexerFacts.CountersBounded | tokenizer.h:104-113 | before index `i`, the row is at most `i + 1`, and the column is between 1 and `i + 1` |
| LexerFacts.CountersIncrease | tokenizer.h:104-113 | the (row, column) pair strictly increases, in lexicographic order, from one character to any later one |
| LexerFacts.LexFromMatches | tokenizer.h:52-131 | run from any index with the counters' true values, the loop yields one token per later lexeme, in order, each stamped with its own row and column |
| LexerFacts.TokenizeMatches | tokenizer.h:47-134 | there is exactly one token per lexeme character, in input order, each with its character's kind and its counted row and column; everything else, newline included, emits nothing |
| LexerFacts.SpellLexFrom | tokenizer.h:52-131 | spelling back the tokens from any index gives the lexemes of the rest of the input |
| LexerFacts.SpellTokenize | tokenizer.h:55-110 | spelling the tokens back through `tokenString` gives the input with every non-lexeme character deleted |
| LexerFacts.TokenizeSpell | tokenizer.h:17 | tokenizing a token list's spelling gives back the same kinds, in the same order |
| LexerFacts.StoredPositionUnwrapped | tokenizer.h:59-60 | on input shorter than 2^32 characters, a token stores its true row and column |
| LexerFacts.PositionsIncrease | tokenizer.h:50-113 | token positions strictly increase in (row, column) order along the list |
| LexerFacts.TokenRowAndColumn | tokenizer.h:104-113 | a token's row is 1 plus the newlines before it (mod 2^32); its column is 2 right after a newline, and its 1-based offset on the first line |
| LexerFacts.ScanAfterFirstToken | tokenizer.h:112-129 | once a node exists, the as-written loop links the same nodes as the corrected one; the tail links to itself exactly when the last character read is a newline |
| LexerFacts.AsWrittenVersusTokenize | tokenizer.h:112-129 | the as-written list crashes exactly on a leading non-lexeme; otherwise it holds the corrected tokens, with a self-linked tail exactly when the input ends in a newline |
| LexerFacts.LeadingCommentCrashes | tokenizer.h:112 | `a+` dereferences NULL, where the intended list is one `+` at (1, 2) |
| LexerFacts.TrailingNewlineLinksTail | tokenizer.h:104-129 | `+\n` leaves the one node linked to itself |
| LexerFacts.CommentIgnored | tokenizer.h:108-113 | `+a+` gives two Increment tokens, at columns 1 and 3 |
| LexerFacts.SecondLineStartsAtColumnTwo | tokenizer.h:104-113 | in `+\n+` the second `+` sits at (2, 2) |
| Parser.TerminalOf | parser.h:228-246 | every token kind maps to a terminal symbol, and to its own same-named one: the terminal gives its kind back, and it is the `[` or `]` node exactly for the `[` or `]` kind |
| Parser.KindOfTerminal | parser.h:228-246 | a symbol names a token kind exactly when it is a terminal |
| Parser.TerminalOfInjective | parser.h:228-246 | distinct kinds get distinct terminals |
| Parser.ParseOp | parser.h:181-280 | at the end: the error with the previous token. At `]`: "no matching `[`" at that `]`. At `[`: succeeds exactly when `loop` does. At a command: one leaf of that kind at the same depth, advancing by one. A success is an `op` node and consumes at least one token |
| Parser.ParseLoop | parser.h:93-179 | gives the end and mismatch errors for a missing `[`, an `expr` error after a final `[`, and "no matching `[`" for `[]`. A success spans at least three tokens, from `[` to `]`, and builds `[`, `expr` at depth+1, `]`, with the brackets at the loop's depth |
| Parser.ParseExprCont | parser.h:282-305 | builds no node exactly at the end or at `]`. Otherwise it builds an `expr'` and stops only at the end or at a `]`. Its chain ends in a NULL slot exactly when a `]` stops it |
| Parser.ParseExpr | parser.h:307-348 | the end of input is an error. A success consumes at least one token, stops only at the end or at a `]`, and builds an `expr` with an `op` first and an `expr'` child only when one was built |
| Parser.Parse | parser.h:70-91 | the empty list, and only it, is "no instructions to compile"; a success is a `start` root at depth 0 over one `expr` at depth 1 |
| Parser.ParseAll | parser.h:70-91 | as `Parse`, and in addition every token must be consumed |
| ParserFacts.OpSound | parser.h:181-280 | the tokens an `op` consumes are well nested |
| ParserFacts.LoopSound | parser.h:93-179 | the tokens a `loop` consumes are well nested |
| ParserFacts.ExprContSound | parser.h:282-305 | the tokens an `expr'` consumes are well nested |
| ParserFacts.ExprSound | parser.h:307-348 | the tokens an `expr` consumes are well nested |
| ParserFacts.OpComplete | parser.h:181-280 | `op` succeeds on any non-empty well-nested stretch and leaves a well-nested rest of it |
| ParserFacts.ExprContComplete | parser.h:282-305 | `expr'` consumes a well-nested stretch up to its stop, to the token |
| ParserFacts.ExprComplete | parser.h:307-348 | `expr` consumes a non-empty well-nested stretch up to its stop, to the token |
| ParserFacts.ExprAccepts | parser.h:307-348 | `expr` succeeds ending at `p` if and only if the stretch up to `p` is non-empty, well nested and followed by the end or a `]` |
| ParserFacts.ParseSucceedsIff | parser.h:70-91 | `parse` succeeds if and only if some non-empty well-nested prefix is followed by the end or a `]` |
| ParserFacts.ParseAllSucceedsIff | parser.h:70-91 | with the end check, parsing succeeds if and only if the whole list is non-empty and well nested |
| ParserFacts.ParseAllRefinesParse | parser.h:70-91 | the corrected parse succeeds exactly when `parse` does and its `expr` consumed everything, and then it returns the same tree |
| ParserFacts.OpFrontier | parser.h:181-280 | an `op` tree's leaves, in pre-order, are its consumed tokens, each at its nesting depth |
| ParserFacts.LoopFrontier | parser.h:93-179 | a `loop` tree's leaves are its consumed tokens, each at its nesting depth |
| ParserFacts.ExprContFrontier | parser.h:282-305 | an `expr'` tree's leaves are its consumed tokens, each at its nesting depth |
| ParserFacts.ExprFrontier | parser.h:307-348 | an `expr` tree's leaves are its consumed tokens, each at its nesting depth |
| ParserFacts.ParseFrontier | parser.h:70-91 | the leaves of the tree `parse` returns are a non-empty prefix of the tokens, in order, each at depth 1 plus the `[` still open before it |
| ParserFacts.ParseAllFrontier | parser.h:70-91 | with the end check, the leaves are every token, in order, at its nesting depth |
| ParserFacts.OpErrors | parser.h:181-280 | an `op` at a token fails only with a reachable error |
| ParserFacts.LoopErrors | parser.h:93-179 | a `loop` at a `[` fails only with a reachable error; its mismatch checks never fire |
| ParserFacts.ExprContErrors | parser.h:282-305 | an `expr'` fails only with a reachable error |
| ParserFacts.ExprErrors | parser.h:307-348 | an `expr` entered at a token, or right after a `[`, fails only with a reachable error |
| ParserFacts.ParseErrors | parser.h:70-348 | every `parse` error is one of: the empty list; a missing `expr` after a `[`; a missing `]` after a token of the list; or "no matching `[`" at a `]` of the list |
| Frontend.Compile | compile.c:25-31 | the driver reports "no instructions" exactly when the file has no lexeme; a success is a `start` tree |
| Frontend.CompileSucceedsIff | compile.c:25-31 | the driver accepts a file if and only if some non-empty prefix of its tokens is well nested and followed by the end or a `]` |
| Frontend.CompileLeavesSpellPrefix | compile.c:25-31 | the leaves of the driver's tree, in pre-order, spell a non-empty prefix of the file's lexemes |
| Frontend.CompileCorrected | parser.h:70-91 | with the end-of-input check: "no instructions" exactly when the file has no lexeme; a success is a `start` tree, the same one the driver builds |
| Frontend.CompileCorrectedSucceedsIff | parser.h:70-91 | with the check, a file is accepted if and only if its tokens are non-empty, balanced and free of `[]` |
| Frontend.CompileCorrectedLeavesSpellSource | parser.h:70-91 | with the check, the leaves of an accepted file's tree, in pre-order, are all its lexemes in source order |
| Frontend.EmptyFileRejected | parser.h:83-88 | the empty file is the "no instructions to compile" error |
| Frontend.StrayCloser | parser.h:201-212 | `]` alone is "no matching `[`" at row 1, column 1 |
| Frontend.UnterminatedLoop | parser.h:141-152 | `[+` is a missing `]` that names the `+` at (1, 2) |
| Frontend.EmptyLoopRejected | parser.h:201-212 | `[]` is "no matching `[`" at the `]` |
| Frontend.LoopTree | parser.h:126-176 | `[-]` gives a loop at depth 1 around a `-` at depth 2 |
| Frontend.NullSlotBeforeCloser | parser.h:296-301 | in `[+-]` the inner `expr'` keeps a NULL continuation slot |
| Frontend.TrailingTokensDropped | parser.h:70-91 | the driver turns `+]+` into the tree of `+` alone, although it is not balanced, while the corrected pipeline reports the `]` |
| Lexer.Walk | tokenizer.h:124-129 | following `next` from the head visits the tokens in order, then keeps revisiting a self-linked last node |
| Frontend.SelfLinkedTailReadForever | parser.h:282-305 | on a self-linked, well-nested list ending in a command, `expr` reads every node of any finite walk past the end, so it never stops on the real list |
| Frontend.TrailingNewlineLoops | parser.h:282-305 | for `+\n`, the parser keeps reading the `+` however far the walk goes |

## Left out

- The code generator (translator.h) is not part of this model.
- misc.h (argument checks, file opening, `writeFile`) is not part of this model. It is command-line and file I/O.
- compile.c is modelled only as the call of `tokenize` followed by `parse` (`Frontend.Compile`). Opening, closing and writing files are I/O. The call of `translate` is not part of this model.
- Frontend.Compile: parses the corrected token list `Lexer.Tokenize` rather than the linked list as built. The two hold the same tokens except for the leading-character crash and the self-linked tail (`LexerFacts.AsWrittenVersusTokenize`); the effect of the self-link on the parser is stated separately (`Frontend.SelfLinkedTailReadForever`).
- Memory management is not modelled: `malloc`, `freeAST`, `freeTokenStream` and the cleanup before `exit`. A result value needs no release.
- The allocation-failure check at tokenizer.h:116-121 is left out. Allocation is not modelled, and the check runs only after the pointer has been used.
- The diagnostic strings are left out. Each error is a typed value that carries the token its message names. The printed texts swap row and column in several messages, and two messages (parser.h:109-115 and parser.h:154-160) have three `%s` and two `%i` but pass only four arguments. This is text, not behaviour.
- `fscanf` character input is left out. The file is a `seq<char>` in which each `char` stands for one byte read by `%c` into `char c`. A multi-byte UTF-8 character is therefore several `char`s, and it advances the column once per byte, as the source does. Decoding is not modelled.
- `exit(EXIT_FAILURE)` is modelled as a `Failure` result.
- Parser: node depths are unbounded naturals. The `unsigned int` depth would wrap only after 2^32 nested `[`.
- LexerFacts.PositionsIncrease: proved only for inputs shorter than 2^32 characters. Beyond that the counters wrap and positions stop increasing.
- LexerFacts.StoredPositionUnwrapped: proved only for inputs shorter than 2^32 characters, for the same reason.
- Parser.ParseLoop: the check for a token other than `]` after the body (parser.h:153-164) is not written as a branch. `expr` returns only at the end or at a `]`, so that check cannot fire. `ParserFacts.ParseErrors` proves that no `Mismatch` error ever reaches the caller.
- Parser.ParseOp: the `default` case of the command switch (parser.h:247-271) has no counterpart. `]` and `[` are handled before it, and the other six kinds each have a case.
- The end-of-input errors of `op` and `loop`, with their NULL `prevTokenPtr`, are modelled but are never reached from `parse`. The "previous token" is then `None`.
- The parser is run on the corrected token list. On the as-written list only finite walks are modelled (`Lexer.Walk`), because a self-linked list is infinite.

## Findings

| source | as written | input that shows it | evidently intended | confidence | as-written member | corrected member |
|---|---|---|---|---|---|---|
| tokenizer.h:112 | `newToken->next = NULL` runs for every character, including before the first token exists | `a+`, or any file starting with a comment, a space or a newline | characters that are not lexemes emit nothing (proved of the corrected lexer by `LexerFacts.TokenizeMatches`) | not executed | LexerFacts.LeadingCommentCrashes | Lexer.Tokenize |
| tokenizer.h:124-129 | a newline leaves `ignore_char` at 0, so `tail->next = newToken` runs with `newToken == tail`, linking the last node to itself | `+\n`, or any file ending in a newline after a token | a NULL-terminated list of the lexemes only (`LexerFacts.AsWrittenVersusTokenize`); on a self-linked, well-nested list ending in a command, `expr'` keeps reading that command | not executed | Frontend.SelfLinkedTailReadForever | Lexer.Tokenize |
| parser.h:70-91 | `parse` returns as soon as the top-level `expr` stops, without checking for leftover tokens | `+]+` is accepted as `+` | a stray `]` is a syntax error: acceptance if and only if the brackets are balanced and nested (`Frontend.CompileCorrectedSucceedsIff`, from `ParserFacts.ParseAllSucceedsIff`) | not executed | Frontend.TrailingTokensDropped | Frontend.CompileCorrected |
