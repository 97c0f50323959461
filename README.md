# RecursiveDescentParser in Dafny

A model of `RecursiveDescentParser`, a small Java program that turns a
source text into a list of token strings (`tokenize`) and then runs a
backtracking recursive-descent acceptor over that list (`parse`), together
with proofs about both halves and about their composition.

The project has five modules:

- `JavaString` (`java_string.dfy`) writes out the `java.lang.String`
  operations that `tokenize` relies on, with their Java semantics:
  - `replace`: literal, left to right, non-overlapping;
  - `trim`: strips characters up to U+0020 at both ends;
  - `replaceAll("\\s+", " ")`, where `\s` is space, tab, newline, vertical tab, form feed and carriage return;
  - `split(" ")`, which drops trailing empty strings and returns the whole string when it has no space.
- `Lexer` (`lexer.dfy`) is the lexer:
  - the padding of the nineteen delimiters, in their fixed order;
  - the word list;
  - the per-word classification, tested in the source's order: digits, then digits `.` digits, then letters, then the `switch`, then unchanged;
  - `Tokenize`, an imperative method with the padding loop and the in-place rewriting loop.

  The lemmas prove:
  - the comparison words `>=`, `<=`, `==` and `!=` never survive padding, so their `switch` cases are dead;
  - no word contains whitespace;
  - blank input gives `[""]`;
  - the float branch is reachable: `3.14` lexes to `FLOAT_LIT:3.14`;
  - `&&` and `||` survive as words of their own: `a&&b` lexes to `ID:a`, `AND`, `ID:b` and `a||b` to `ID:a`, `OR`, `ID:b`;
  - the lexer never emits the exact strings the parser's statements need.
- `Grammar` (`grammar.dfy`) gives the reference semantics of every parser procedure. Each procedure is a function from the token list and the cursor on entry to the result and the cursor on exit:
  - `Step` for procedures that cannot throw;
  - `Exec` for those that can. Its `NullDeref` outcome models the `NullPointerException` of `isIdentifier(peek())` at the end of the input.

  Each function's contract states the procedure's cursor discipline:
  - which procedures restore the cursor on failure;
  - which strictly advance on success;
  - which token must come first or last;
  - where the exception can occur.
- `Parser` (`parser.dfy`) is the class `RecursiveDescentParser`, with the token list and the mutable cursor `index`. Every grammar procedure is a method that updates `index` in place, with the source's `while` loops; `peek` is a method that changes nothing, and `isIdentifier`, which reads no parser state, is the function `Grammar.IsIdentifier` that the methods call. Each method is proved to produce exactly the result and exit cursor of its `Grammar` function.
- `EndToEnd` (`end_to_end.dfy`) holds the composition:
  - for every source text, parsing the tokenized text returns false and never throws, because the two vocabularies disagree;
  - worked examples on hand-written token lists show what the parser does accept, reject, and throw on.

The model follows the code, not an idealised grammar. The parser compares
against `"if"`, `"("`, `"{"`, `"="`, `"int"`, `"+"`, `"&&"` and `"ID"`,
where the lexer emits `"ID:if"`, `"LEFTPAREN"`, `"LEFTBRACKET"`,
`"EQUALS"`, `"ID:int"`, `"PLUS"`, `"AND"` and `"ID:x"` (for an identifier
`x`). The parser also compares against `"=="`, which the lexer never emits:
`==` is split by the padding of `=`, and the resulting kind names are never
`"=="` either. The model keeps both vocabularies exactly as written.

Two consequences of the code are worth stating:
- The float-literal branch is reachable. `.` is not a delimiter, so `3.14` stays one word and becomes `FLOAT_LIT:3.14` (`Lexer.FloatBranchReachable`).
- `accept("int")` compares against the exact string `"int"`, which the lexer never emits: `int` becomes `ID:int` (`Lexer.ClassifyAvoidsKeywords`).

## Model

| member | source | states |
|---|---|---|
| JavaString.Replace | RecursiveDescentParser.java:21 | `replace`, literal, left to right and non-overlapping; it never shortens the text when the replacement is at least as long as the pattern. Its effect is pinned by `ReplaceAbsent`, `ReplaceEqIsolates` and `OpReplaced` |
| JavaString.ReplaceAbsent | RecursiveDescentParser.java:20-22 | `replace` leaves a text unchanged when the first character of the pattern does not occur in it |
| JavaString.TrimStart | RecursiveDescentParser.java:23 | the leading part of `trim` removes a prefix of characters <= U+0020 and stops at a character above it |
| JavaString.TrimEnd | RecursiveDescentParser.java:23 | the trailing part of `trim` removes a suffix of characters <= U+0020 and stops at a character above it |
| JavaString.Trim | RecursiveDescentParser.java:23 | `trim` leaves no character <= U+0020 at either end, returns the text itself when neither end has one, is empty only for a text made of such characters, and never lengthens the text |
| JavaString.SkipWs | RecursiveDescentParser.java:23 | drops exactly the leading run of `\s` characters |
| JavaString.CollapseWs | RecursiveDescentParser.java:23 | `replaceAll("\\s+", " ")` keeps emptiness; the first and last characters are those of the input with whitespace turned into a space; the only whitespace left is the space; no two spaces are adjacent; the non-whitespace characters are those of the input, in order |
| JavaString.NonWsSkip | RecursiveDescentParser.java:23 | dropping a leading whitespace run keeps the non-whitespace characters |
| JavaString.NormAll | RecursiveDescentParser.java:23 | turning each whitespace character into a space keeps the length |
| JavaString.SqueezeAfterSpace | RecursiveDescentParser.java:23 | after a space, the reference collapse of the rest skips its leading whitespace run |
| JavaString.CollapseIsSqueeze | RecursiveDescentParser.java:23 | `replaceAll("\\s+", " ")` equals an independent definition: turn every whitespace character into a space, then drop the first of every two adjacent spaces |
| JavaString.CollapseNoWs | RecursiveDescentParser.java:23 | a text without whitespace is left unchanged by the collapse |
| JavaString.CollapseIdentity | RecursiveDescentParser.java:23 | a text whose whitespace is single spaces is left unchanged by the collapse |
| JavaString.NormAllFixed | RecursiveDescentParser.java:23 | a text whose only whitespace is the space is unchanged by turning whitespace into spaces |
| JavaString.SqueezeFixed | RecursiveDescentParser.java:23 | a text without two adjacent spaces is unchanged by the reference squeeze |
| JavaString.Pieces | RecursiveDescentParser.java:24 | splitting on spaces yields at least one piece; the first piece is a prefix of the text; no piece contains a space; joining the pieces with single spaces gives back the text |
| JavaString.JoinEmptyCons | RecursiveDescentParser.java:24 | an empty first piece joins to a leading space |
| JavaString.JoinHeadCons | RecursiveDescentParser.java:24 | a character in front of the first piece is in front of the joined text |
| JavaString.JoinTailSnoc | RecursiveDescentParser.java:24 | joining one more piece appends a space and that piece |
| JavaString.JoinSnocEmpty | RecursiveDescentParser.java:24 | joining one more empty piece appends one space |
| JavaString.SpacePaddedSnoc | RecursiveDescentParser.java:24 | appending a space to a text keeps it a space-padded extension of the same prefix |
| JavaString.DropTrailingEmpty | RecursiveDescentParser.java:24 | removing trailing empty strings keeps a prefix of the list whose last element is non-empty, and every element removed is empty |
| JavaString.DropTrailingJoin | RecursiveDescentParser.java:24 | the join of the kept pieces is the join of all pieces without some trailing spaces |
| JavaString.Split | RecursiveDescentParser.java:24 | `split(" ")` returns the whole text when it holds no space; no piece contains a space; otherwise joining the result with single spaces gives back the text up to trailing spaces, and the last piece is not empty |
| JavaString.PiecesNoSpace | RecursiveDescentParser.java:24 | a text without a space is a single piece |
| JavaString.PiecesWordSpace | RecursiveDescentParser.java:24 | a space-free word followed by a space is the first piece, and the rest is split on its own |
| JavaString.PiecesTwoWords | RecursiveDescentParser.java:24 | two space-free words joined by a space split into those two |
| JavaString.PiecesThreeWords | RecursiveDescentParser.java:24 | three space-free words joined by single spaces split into those three |
| JavaString.SplitKeepsLastPiece | RecursiveDescentParser.java:24 | `split(" ")` drops nothing when the last piece is not empty |
| JavaString.SplitThreeWords | RecursiveDescentParser.java:24 | `split(" ")` of three space-free words joined by single spaces, the last non-empty, gives back the three words |
| Lexer.PadPrefix | RecursiveDescentParser.java:19-22 | the text after the first `k` iterations of the padding loop; it never shortens the text (see also `PadPrefixAbsent`, `PadPrefixSteady`) |
| Lexer.Pad | RecursiveDescentParser.java:19-22 | the text after the whole padding loop over the nineteen delimiters in the source's order; it never shortens the text, and every `=` in it is isolated (`PadEqIsolated`) |
| Lexer.Words | RecursiveDescentParser.java:19-24 | the word list: pad, trim, collapse whitespace runs, `split(" ")`; it is never empty |
| Lexer.SplitNonEmpty | RecursiveDescentParser.java:24 | `split(" ")` of a text that does not end in a space returns at least one word |
| Lexer.IsDigits | RecursiveDescentParser.java:28 | `matches("\\d+")`: one or more ASCII digits; such a word never also matches `[a-zA-Z]+` |
| Lexer.IsFloat | RecursiveDescentParser.java:30 | `matches("\\d+\\.\\d+")`: digits, `.`, digits; such a word contains `.` and so matches neither `\\d+` nor `[a-zA-Z]+` |
| Lexer.IsLetters | RecursiveDescentParser.java:32 | `matches("[a-zA-Z]+")`: one or more ASCII letters; such a word is non-empty, does not start with a digit and holds no `.`, so the earlier branches never take it (see `ClassifyLetters`) |
| Lexer.Classify | RecursiveDescentParser.java:27-95 | the per-word rewrite: digits, then digits `.` digits, then letters, then the `switch`, otherwise the word unchanged; the result is the word itself or starts with an upper-case letter (see `ClassifyLetters`, `ClassifySymbol`, `FloatClassified`, `EmptyWordUnchanged`) |
| Lexer.Lex | RecursiveDescentParser.java:18-100 | `tokenize` as a function: the classification of each word of `Words`, one for one; never empty. `Tokenize` is proved to compute it |
| Lexer.Tokenize | RecursiveDescentParser.java:18-100 | the padding loop and the in-place rewriting loop give one token per word, and each token is the classification of its word |
| Lexer.SymbolKindsUpper | RecursiveDescentParser.java:35-92 | every kind name of the `switch` starts with an upper-case letter |
| Lexer.SymbolComparisonKinds | RecursiveDescentParser.java:75-86 | each comparison kind name belongs to exactly one symbol |
| Lexer.ClassifyAvoidsKeywords | RecursiveDescentParser.java:27-95 | no word is classified as `if`, `while`, `{`, `=`, `int` or `float` |
| Lexer.LexAvoidsKeywords | RecursiveDescentParser.java:18-100 | no token of `tokenize` is one of those six strings |
| Lexer.ClassifyComparisonKinds | RecursiveDescentParser.java:27-95 | a word classified `GREATEREQUAL`, `LESSEQUAL`, `EQUALTO` or `NOTEQUAL` is exactly `>=`, `<=`, `==` or `!=` |
| Lexer.FloatBranchReachable | RecursiveDescentParser.java:18-100 | the word `3.14` reaches the float branch and becomes `FLOAT_LIT:3.14`, and `tokenize("3.14")` is exactly `[FLOAT_LIT:3.14]` |
| Lexer.FloatClassified | RecursiveDescentParser.java:30-31 | the word `3.14` is classified `FLOAT_LIT:3.14` |
| Lexer.SingleWord | RecursiveDescentParser.java:19-24 | a non-empty text of characters above U+0020 that are no delimiter characters is one word |
| Lexer.PadPrefixSteady | RecursiveDescentParser.java:19-22 | padding steps whose delimiters' first characters are absent from the text at that point leave it unchanged |
| Lexer.ClassifyLetters | RecursiveDescentParser.java:27-33 | a word of letters becomes `ID:` followed by the word |
| Lexer.ClassifySymbol | RecursiveDescentParser.java:27-92 | a symbol of the `switch` becomes its kind name |
| Lexer.LexAt | RecursiveDescentParser.java:26-97 | the tokens are the classified words, one for one |
| Lexer.LexThree | RecursiveDescentParser.java:26-97 | three words classified as given make three tokens |
| Lexer.AndOperatorLexed | RecursiveDescentParser.java:18-100 | `&&` is padded into a word of its own and classified `AND` between its operands: `tokenize("a&&b")` is exactly `ID:a`, `AND`, `ID:b`, so the `AND` case of the `switch` is live. The proof is shared with `OrOperatorLexed` and runs through the helpers `OpPrefixUnchanged`, `OpReplaced`, `OpPadded`, `OpCleaned`, `OpSplit`, `OpWords`, `OpWordsClassified`, `LexOfOpWords` and `OpLexed`, each over either operator |
| Lexer.OrOperatorLexed | RecursiveDescentParser.java:18-100 | likewise the or operator (two vertical bars) survives as a word and is classified `OR`: tokenizing `a`, or operator, `b` (no spaces) gives exactly `ID:a`, `OR`, `ID:b` |
| Lexer.EqIsolatedSlice | RecursiveDescentParser.java:23 | a slice of a text whose every `=` is isolated by spaces still has that property |
| Lexer.EqIsolatedCons | RecursiveDescentParser.java:21 | prefixing one character keeps every `=` isolated when an `=` on either side of the join has a space as its new neighbour |
| Lexer.ReplaceEqIsolates | RecursiveDescentParser.java:21 | replacing `=` by ` = ` leaves every `=` with a space, or the text's edge, on both sides |
| Lexer.CollapseKeepsEqIsolated | RecursiveDescentParser.java:23 | collapsing whitespace runs keeps every `=` isolated |
| Lexer.PiecesKeepEqIsolated | RecursiveDescentParser.java:24 | every piece of the split keeps every `=` isolated |
| Lexer.IsolatedNotComparison | RecursiveDescentParser.java:75-86 | a word whose every `=` is isolated is none of `>=`, `<=`, `==`, `!=` |
| Lexer.PadEqIsolated | RecursiveDescentParser.java:19-22 | after the whole padding loop, `=` being padded last, every `=` is isolated |
| Lexer.TrimKeepsEqIsolated | RecursiveDescentParser.java:23 | `trim` keeps every `=` isolated |
| Lexer.WordsEqIsolated | RecursiveDescentParser.java:19-24 | every word of the split list has its `=` isolated |
| Lexer.SplitKeepsEqIsolated | RecursiveDescentParser.java:24 | `split(" ")` keeps every `=` isolated |
| Lexer.WordsLackComparisons | RecursiveDescentParser.java:19-24 | no word is `>=`, `<=`, `==` or `!=` |
| Lexer.LexLacksComparisonKinds | RecursiveDescentParser.java:75-86 | `tokenize` never emits `GREATEREQUAL`, `LESSEQUAL`, `EQUALTO` or `NOTEQUAL`, so those cases are dead |
| Lexer.WordsLackWhitespace | RecursiveDescentParser.java:23-24 | no word contains a whitespace character |
| Lexer.SplitLacksWhitespace | RecursiveDescentParser.java:24 | splitting a text whose only whitespace is spaces leaves no whitespace in any piece |
| Lexer.PiecesAreSlices | RecursiveDescentParser.java:24 | every character of a piece is a character of the split text |
| Lexer.PadPrefixAbsent | RecursiveDescentParser.java:19-22 | padding leaves a text without delimiter characters unchanged |
| Lexer.BlankWords | RecursiveDescentParser.java:19-24 | a text of characters <= U+0020 yields the word list `[""]` |
| Lexer.EmptyWordUnchanged | RecursiveDescentParser.java:93-94 | the empty word falls through every test and stays as it is |
| Lexer.BlankInput | RecursiveDescentParser.java:18-100 | blank input tokenizes to the one-element list `[""]` |
| Grammar.Matches | RecursiveDescentParser.java:304-313 | the test inside `accept`: a prefix test for `ID:`, `INT_LIT:` and `FLOAT_LIT:`, exact equality for every other name; every token it takes begins with the name, and the name itself is always taken (see `Accept`) |
| Grammar.Accept | RecursiveDescentParser.java:302-317 | `accept` succeeds exactly when a token remains and equals the name, or starts with it for `ID:`, `INT_LIT:` and `FLOAT_LIT:`; on success the cursor advances by one, otherwise it is unchanged |
| Grammar.Peek | RecursiveDescentParser.java:295-300 | `peek` is null exactly at the end of the input, and otherwise the current token |
| Grammar.IsIdentifier | RecursiveDescentParser.java:198-200 | `isIdentifier` throws exactly on null and accepts exactly the tokens starting with `ID:` |
| Grammar.Parse | RecursiveDescentParser.java:124-129 | `parse` accepts exactly when `stmt` succeeds and leaves the cursor at the end of the list, which then ends with `SEMICOLON` |
| Grammar.Stmt | RecursiveDescentParser.java:131-144 | `stmt` restores the cursor on failure; on success it strictly advances and the last consumed token is `SEMICOLON`; the cursor stays within the list |
| Grammar.IfStatement | RecursiveDescentParser.java:148-161 | `ifStatement` restores on failure, including a failed else branch; on success it starts with `if (`, consumes at least five tokens and ends with `SEMICOLON`; it can throw only after `if` |
| Grammar.WhileLoop | RecursiveDescentParser.java:163-170 | `whileLoop` restores on failure; on success it starts with `while (`, consumes at least five tokens and ends with `SEMICOLON`; it can throw only after `while` |
| Grammar.Block | RecursiveDescentParser.java:202-212 | `block` restores on failure; on success it runs from `{` to `}` |
| Grammar.BlockBody | RecursiveDescentParser.java:205 | `while (stmt()) {}` never ends in failure; when it ends normally, `stmt` fails at its exit cursor |
| Grammar.AssignStmt | RecursiveDescentParser.java:172-196 | `assignStmt` moves the cursor exactly when the current token is an identifier; success needs `ID:… = …`; an identifier without `=` fails one past the identifier |
| Grammar.DeclareStmt | RecursiveDescentParser.java:104-122 | `declareStmt` moves exactly when the current token is `int` or `float`, and otherwise fails in place; success ends on an identifier; it throws only at the end of the input after `int`, `float` or `,`, and always throws when `int` or `float` is the last token |
| Grammar.DeclareTail | RecursiveDescentParser.java:111-118 | the `,` loop succeeds after an identifier or without moving; it fails only after a `,` whose next token does not start with `ID:`; it throws only when `,` is the last token, and always throws when the loop starts at a `,` that is the last token |
| Grammar.Expr | RecursiveDescentParser.java:214-224 | `expr` stays within the list and strictly advances on success |
| Grammar.ExprTail | RecursiveDescentParser.java:218-222 | the `+`/`-` loop fails only after consuming an operator, and the token it consumed first is `+` or `-` |
| Grammar.Term | RecursiveDescentParser.java:226-236 | `term` stays within the list and strictly advances on success |
| Grammar.TermTail | RecursiveDescentParser.java:230-234 | the `*`/`/`/`%` loop fails only after consuming an operator, and the token it consumed first is `*`, `/` or `%` |
| Grammar.Factor | RecursiveDescentParser.java:238-248 | `factor` strictly advances on success and moves only from `ID`, `INT_LIT`, `FLOAT_LIT` or `LEFTPAREN` |
| Grammar.BoolExpr | RecursiveDescentParser.java:251-253 | `boolExpr` stays within the list and strictly advances on success |
| Grammar.BTerm | RecursiveDescentParser.java:255-266 | `bterm` stays within the list and strictly advances on success |
| Grammar.BTermTail | RecursiveDescentParser.java:260-264 | the `==`/`!=` loop fails only after consuming an operator, and the token it consumed first is `==` or `!=` |
| Grammar.BAnd | RecursiveDescentParser.java:268-279 | `band` stays within the list and strictly advances on success |
| Grammar.BAndTail | RecursiveDescentParser.java:273-277 | the `&&` loop fails only after consuming an operator, and the token it consumed first is `&&` |
| Grammar.BOr | RecursiveDescentParser.java:281-292 | `bor` stays within the list and strictly advances on success |
| Grammar.BOrTail | RecursiveDescentParser.java:286-290 | the `OR` loop fails only after consuming an operator, and the token it consumed first is `OR` |
| Parser.RecursiveDescentParser.constructor | RecursiveDescentParser.java:13-16 | a fresh parser holds the list with the cursor at 0 |
| Parser.RecursiveDescentParser.Accept | RecursiveDescentParser.java:302-317 | the method's result and new cursor are those of `Grammar.Accept` |
| Parser.RecursiveDescentParser.Peek | RecursiveDescentParser.java:295-300 | returns `Grammar.Peek` without changing the cursor |
| Parser.RecursiveDescentParser.Parse | RecursiveDescentParser.java:124-129 | returns `Grammar.Parse`; true exactly when `stmt` succeeds and ends at the end of the list |
| Parser.RecursiveDescentParser.Stmt | RecursiveDescentParser.java:131-144 | result and new cursor equal `Grammar.Stmt` |
| Parser.RecursiveDescentParser.IfStatement | RecursiveDescentParser.java:148-161 | result and new cursor equal `Grammar.IfStatement` |
| Parser.RecursiveDescentParser.WhileLoop | RecursiveDescentParser.java:163-170 | result and new cursor equal `Grammar.WhileLoop` |
| Parser.RecursiveDescentParser.Block | RecursiveDescentParser.java:202-212 | result and new cursor equal `Grammar.Block`; the loop keeps the remaining `BlockBody` unchanged |
| Parser.RecursiveDescentParser.AssignStmt | RecursiveDescentParser.java:172-196 | result and new cursor equal `Grammar.AssignStmt` |
| Parser.RecursiveDescentParser.DeclareStmt | RecursiveDescentParser.java:104-122 | result and new cursor equal `Grammar.DeclareStmt` |
| Parser.RecursiveDescentParser.DeclareList | RecursiveDescentParser.java:111-118 | the `,` loop's result and new cursor equal `Grammar.DeclareTail` |
| Parser.RecursiveDescentParser.Expr | RecursiveDescentParser.java:214-224 | result and new cursor equal `Grammar.Expr` |
| Parser.RecursiveDescentParser.Term | RecursiveDescentParser.java:226-236 | result and new cursor equal `Grammar.Term` |
| Parser.RecursiveDescentParser.Factor | RecursiveDescentParser.java:238-248 | result and new cursor equal `Grammar.Factor` |
| Parser.RecursiveDescentParser.BoolExpr | RecursiveDescentParser.java:251-253 | result and new cursor equal `Grammar.BoolExpr` |
| Parser.RecursiveDescentParser.BTerm | RecursiveDescentParser.java:255-266 | result and new cursor equal `Grammar.BTerm` |
| Parser.RecursiveDescentParser.BAnd | RecursiveDescentParser.java:268-279 | result and new cursor equal `Grammar.BAnd` |
| Parser.RecursiveDescentParser.BOr | RecursiveDescentParser.java:281-292 | result and new cursor equal `Grammar.BOr` |
| EndToEnd.StmtFailsWithoutKeywords | RecursiveDescentParser.java:131-212 | with none of `if`, `while`, `{`, `=`, `int`, `float` in the list, `stmt` fails in place and cannot throw |
| EndToEnd.ParseRejectsWithoutKeywords | RecursiveDescentParser.java:124-129 | such a list is rejected by `parse` |
| EndToEnd.TokenizedSourceRejected | RecursiveDescentParser.java:18-317 | for every source text, `parse` over `tokenize` returns false without throwing |
| EndToEnd.TokenizeAndParse | RecursiveDescentParser.java:13-317 | tokenizing, building a parser and parsing always yields false |
| EndToEnd.StmtRetriesDeclarationAfterIdentifier | RecursiveDescentParser.java:131-144 | after an identifier not followed by `=`, `stmt` runs `declareStmt` one token further on: it throws exactly when that throws, restores the cursor when that fails, and when that succeeds it needs a `SEMICOLON` next, ending just past it, and otherwise restores the cursor |
| EndToEnd.AssignmentAccepted | RecursiveDescentParser.java:124-196 | `ID:y = ID SEMICOLON` is accepted |
| EndToEnd.TrailingTokenRejected | RecursiveDescentParser.java:124-129 | the same list with one more `SEMICOLON` is rejected |
| EndToEnd.DeclarationAtEndThrows | RecursiveDescentParser.java:104-107 | the list `int` makes `parse` throw |
| EndToEnd.TrailingCommaThrows | RecursiveDescentParser.java:104-118 | the list `int ID:x ,` makes `parse` throw: the `,` loop asks `isIdentifier` about the missing next token |
| EndToEnd.IdentifierThenDeclarationAccepted | RecursiveDescentParser.java:131-185 | `ID:int int ID:x SEMICOLON` is accepted, since `declareStmt` starts where `assignStmt` failed |
| EndToEnd.ExprFailsPastOperator | RecursiveDescentParser.java:214-224 | on `ID +`, `expr` fails with both tokens consumed |
| EndToEnd.ControlStatementEndsWithTwoSemicolons | RecursiveDescentParser.java:131-170 | a statement starting with `if` or `while` that `stmt` accepts ends with two `SEMICOLON`s |
| EndToEnd.OtherAlternativesFail | RecursiveDescentParser.java:172-212 | at an `if` or `while` token, `block`, `assignStmt` and `declareStmt` fail in place |
| EndToEnd.StmtAfterControl | RecursiveDescentParser.java:131-139 | when `if` or `while` is chosen, `stmt` succeeds one `SEMICOLON` after it |

## Left out

- `main` (reading a file name from standard input, reading the file, printing the tokens and the result) is I/O and is not part of this model.
- Java's regular-expression engine is not modelled. The three patterns `\d+`, `\d+\.\d+` and `[a-zA-Z]+` are written as predicates on ASCII characters, and `\s+` as runs of the six Java whitespace characters.
- Java strings are UTF-16. The model works on Dafny `char`s and does not model surrogate pairs. This changes nothing for the predicates used, which only look at ASCII characters.
- The parser's `index` is a Java `int`. The model uses an unbounded `nat`, because a list can never hold enough tokens for the cursor to overflow.
- A `null` token list, or `null` entries in it, is not modelled. `tokenize` never produces either. The only null the model handles is the one `peek` returns at the end of the input.
- The token list is immutable in the model. In Java the parser keeps a reference to the `ArrayList`, which nothing modifies after construction.
- The `while (accept(","))` loop of `declareStmt` is a separate method, `DeclareList`. `DeclareStmt` calls it at the point where the loop starts, and it has the same effect.
- The `ArrayList` that `tokenize` rewrites with `tokens.set(i, …)` is a sequence. The loop reassigns it one entry at a time.
