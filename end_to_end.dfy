/** What follows from the lexer and the parser taken together, and worked
    examples of the parser on token lists written by hand. */
module EndToEnd {
  import opened JavaString
  import opened Lexer
  import opened Grammar
  import opened Parser

  /** Without any of those strings in the list, `stmt` fails at every cursor
      and restores it; nothing can throw. */
  lemma StmtFailsWithoutKeywords(toks: seq<string>, i: nat)
    requires i <= |toks|
    requires forall k :: 0 <= k < |toks| ==> toks[k] !in ParserKeywords
    ensures Stmt(toks, i) == Exec(Ok(false), i)
  {
    assert i < |toks| ==> toks[i] !in ParserKeywords;
    assert IfStatement(toks, i) == Exec(Ok(false), i);
    assert WhileLoop(toks, i) == Exec(Ok(false), i);
    assert Block(toks, i) == Exec(Ok(false), i);
    var d := AssignStmt(toks, i);
    assert !d.ok && (d.pos == i || d.pos == i + 1) by {
      if i < |toks| && StartsWith(toks[i], "ID:") {
        assert i + 1 == |toks| || toks[i + 1] != "=";
      }
    }
    assert d.pos < |toks| ==> toks[d.pos] !in ParserKeywords;
    assert DeclareStmt(toks, d.pos) == Exec(Ok(false), d.pos);
  }

  /** Hence `parse` rejects such a list, without throwing. */
  lemma ParseRejectsWithoutKeywords(toks: seq<string>)
    requires forall k :: 0 <= k < |toks| ==> toks[k] !in ParserKeywords
    ensures Parse(toks, 0) == Ok(false)
  {
    StmtFailsWithoutKeywords(toks, 0);
  }

  /** The lexer never produces one of those strings, so for every source text
      `parse` over `tokenize` of it returns false and never throws. */
  lemma TokenizedSourceRejected(source: string)
    ensures Parse(Lex(source), 0) == Ok(false)
  {
    var toks := Lex(source);
    LexAvoidsKeywords(source);
    ParseRejectsWithoutKeywords(toks);
  }

  /** The driver's two calls: tokenize the source, parse on a fresh parser. */
  method TokenizeAndParse(source: string) returns (result: Outcome)
    ensures result == Ok(false)
  {
    var tokens := Tokenize(source);
    assert tokens == Lex(source);
    var parser := new RecursiveDescentParser(tokens);
    result := parser.Parse();
    TokenizedSourceRejected(source);
  }

  /** `assignStmt` is not transactional: after an identifier that is not
      followed by `=`, `stmt` tries `declareStmt` one token further on, and
      an exception there is an exception of `stmt`. */
  lemma StmtRetriesDeclarationAfterIdentifier(toks: seq<string>, i: nat)
    requires i + 1 < |toks| && StartsWith(toks[i], "ID:") && toks[i + 1] != "="
    ensures Stmt(toks, i).out == NullDeref <==> DeclareStmt(toks, i + 1).out == NullDeref
    ensures DeclareStmt(toks, i + 1).out == NullDeref ==> Stmt(toks, i) == DeclareStmt(toks, i + 1)
    ensures DeclareStmt(toks, i + 1).out == Ok(false) ==> Stmt(toks, i) == Exec(Ok(false), i)
    ensures DeclareStmt(toks, i + 1).out == Ok(true) ==>
      var e := DeclareStmt(toks, i + 1);
      Stmt(toks, i) == if Accept(toks, e.pos, "SEMICOLON").ok then Exec(Ok(true), e.pos + 1) else Exec(Ok(false), i)
  {
    assert toks[i][0] == 'I';
    assert IfStatement(toks, i) == Exec(Ok(false), i);
    assert WhileLoop(toks, i) == Exec(Ok(false), i);
    assert Block(toks, i) == Exec(Ok(false), i);
    assert AssignStmt(toks, i) == Step(false, i + 1);
  }

  // ---------------------------------------------------------------------
  // Worked examples on token lists in the parser's own vocabulary
  // ---------------------------------------------------------------------

  /** `y = ID ;` written with the strings the parser looks for is accepted. */
  lemma AssignmentAccepted()
    ensures Parse(["ID:y", "=", "ID", "SEMICOLON"], 0) == Ok(true)
  {
    var t := ["ID:y", "=", "ID", "SEMICOLON"];
    assert StartsWith(t[0], "ID:");
    assert Expr(t, 2) == Step(true, 3);
  }

  /** The same statement followed by one more token is rejected. */
  lemma TrailingTokenRejected()
    ensures Parse(["ID:y", "=", "ID", "SEMICOLON", "SEMICOLON"], 0) == Ok(false)
  {
    var t := ["ID:y", "=", "ID", "SEMICOLON", "SEMICOLON"];
    assert StartsWith(t[0], "ID:");
    assert Expr(t, 2) == Step(true, 3);
  }

  /** A lone `int` makes `declareStmt` call `isIdentifier(null)`. */
  lemma DeclarationAtEndThrows()
    ensures Parse(["int"], 0) == NullDeref
  {
    var t := ["int"];
    assert !StartsWith(t[0], "ID:") by { assert t[0][..3][0] == 'i'; }
    assert AssignStmt(t, 0) == Step(false, 0);
  }

  /** A declaration list that ends in `,` throws: the loop accepts the comma
      and then asks `isIdentifier` about the missing next token. */
  lemma TrailingCommaThrows()
    ensures Parse(["int", "ID:x", ","], 0) == NullDeref
  {
    var t := ["int", "ID:x", ","];
    assert !StartsWith(t[0], "ID:") by { assert t[0][..3][0] == 'i'; }
    assert AssignStmt(t, 0) == Step(false, 0);
    assert StartsWith(t[1], "ID:");
  }

  /** `assignStmt` consumes `ID:int` and fails on `int`; `declareStmt` then
      parses `int ID:x` from there, so `stmt` accepts a list that starts
      with a stray identifier. */
  lemma IdentifierThenDeclarationAccepted()
    ensures Parse(["ID:int", "int", "ID:x", "SEMICOLON"], 0) == Ok(true)
  {
    var t := ["ID:int", "int", "ID:x", "SEMICOLON"];
    assert StartsWith(t[0], "ID:");
    assert StartsWith(t[2], "ID:");
    assert AssignStmt(t, 0) == Step(false, 1);
    assert DeclareStmt(t, 1) == Exec(Ok(true), 3);
  }

  /** `expr` is not transactional either: on `ID +` it consumes both tokens
      and then fails for want of a second term. */
  lemma ExprFailsPastOperator()
    ensures Expr(["ID", "+"], 0) == Step(false, 2)
  {
    var t := ["ID", "+"];
    assert Term(t, 0) == Step(true, 1);
  }

  /** An `if` or `while` statement ends with two `SEMICOLON`s: one closing
      its body statement and one that `stmt` demands after the alternative. */
  lemma ControlStatementEndsWithTwoSemicolons(toks: seq<string>, i: nat)
    requires i < |toks| && (toks[i] == "if" || toks[i] == "while")
    requires Stmt(toks, i).out == Ok(true)
    ensures i + 2 <= Stmt(toks, i).pos
    ensures toks[Stmt(toks, i).pos - 2] == "SEMICOLON" && toks[Stmt(toks, i).pos - 1] == "SEMICOLON"
  {
    OtherAlternativesFail(toks, i);
    var a := if toks[i] == "if" then IfStatement(toks, i) else WhileLoop(toks, i);
    StmtAfterControl(toks, i, a);
  }

  /** At an `if` or `while` token, `block`, `assignStmt` and `declareStmt`
      fail without moving the cursor. */
  lemma OtherAlternativesFail(toks: seq<string>, i: nat)
    requires i < |toks| && (toks[i] == "if" || toks[i] == "while")
    ensures Block(toks, i) == Exec(Ok(false), i)
    ensures AssignStmt(toks, i) == Step(false, i)
    ensures DeclareStmt(toks, i) == Exec(Ok(false), i)
  {
    assert !StartsWith(toks[i], "ID:") by { assert toks[i][0] != 'I'; }
  }

  /** When the chosen alternative is a control statement, `stmt` succeeds
      exactly one `SEMICOLON` after it. */
  lemma StmtAfterControl(toks: seq<string>, i: nat, a: Exec)
    requires i < |toks| && (toks[i] == "if" || toks[i] == "while")
    requires a == (if toks[i] == "if" then IfStatement(toks, i) else WhileLoop(toks, i))
    requires Block(toks, i) == Exec(Ok(false), i)
    requires AssignStmt(toks, i) == Step(false, i)
    requires DeclareStmt(toks, i) == Exec(Ok(false), i)
    requires Stmt(toks, i).out == Ok(true)
    ensures a.out == Ok(true) && Stmt(toks, i).pos == a.pos + 1
  {
  }
}
