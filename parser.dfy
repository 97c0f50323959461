/** The parser object: `RecursiveDescentParser` holds the token list and a
    mutable cursor `index`, which every procedure advances, and some restore,
    in place. Each method's postcondition ties its result and the new cursor
    to the reference semantics in `Grammar`, whose contracts state the cursor
    discipline. */
module Parser {
  import opened Grammar

  class RecursiveDescentParser {
    const tokens: seq<string>
    var index: nat

    ghost predicate Valid()
      reads this
    {
      index <= |tokens|
    }

    constructor (tokens: seq<string>)
      ensures Valid() && this.tokens == tokens && index == 0
    {
      this.tokens := tokens;
      index := 0;
    }

    method Accept(tokenName: string) returns (ok: bool)
      requires Valid()
      modifies this
      ensures Valid() && Step(ok, index) == Grammar.Accept(tokens, old(index), tokenName)
    {
      ok := false;
      if index < |tokens| {
        if tokenName == "ID:" || tokenName == "INT_LIT:" || tokenName == "FLOAT_LIT:" {
          if JavaString.StartsWith(tokens[index], tokenName) {
            index := index + 1;
            ok := true;
          }
        } else {
          if tokens[index] == tokenName {
            index := index + 1;
            ok := true;
          }
        }
      }
    }

    method Peek() returns (token: Option<string>)
      requires Valid()
      ensures token == Grammar.Peek(tokens, index)
    {
      if index < |tokens| {
        token := Some(tokens[index]);
      } else {
        token := None;
      }
    }

    method Parse() returns (r: Outcome)
      requires Valid()
      modifies this
      ensures Valid()
      ensures r == Grammar.Parse(tokens, old(index))
      ensures r == Ok(true) <==> Grammar.Stmt(tokens, old(index)) == Exec(Ok(true), |tokens|)
    {
      r := Stmt();
      if r != Ok(true) {
        return;
      }
      r := Ok(index >= |tokens|);
    }

    method Stmt() returns (r: Outcome)
      requires Valid()
      modifies this
      ensures Valid() && Exec(r, index) == Grammar.Stmt(tokens, old(index))
      decreases |tokens| - index, 13
    {
      var startIndex := index;
      r := IfStatement();
      if r == Ok(false) {
        r := WhileLoop();
      }
      if r == Ok(false) {
        r := Block();
      }
      if r == Ok(false) {
        var ok := AssignStmt();
        r := Ok(ok);
      }
      if r == Ok(false) {
        r := DeclareStmt();
      }
      if r == NullDeref {
        return;
      }
      if r == Ok(true) {
        var semi := Accept("SEMICOLON");
        if !semi {
          index := startIndex;
          r := Ok(false);
        }
      } else {
        index := startIndex;
      }
    }

    method IfStatement() returns (r: Outcome)
      requires Valid()
      modifies this
      ensures Valid() && Exec(r, index) == Grammar.IfStatement(tokens, old(index))
      decreases |tokens| - index, 11
    {
      var startIndex := index;
      var ok := Accept("if");
      if ok { ok := Accept("("); }
      if ok { ok := BoolExpr(); }
      if ok { ok := Accept(")"); }
      if !ok {
        index := startIndex;
        return Ok(false);
      }
      r := Stmt();
      if r == NullDeref {
        return;
      }
      if r == Ok(true) {
        var sawElse := Accept("else");
        if sawElse {
          r := Stmt();
          if r == NullDeref {
            return;
          }
          if r == Ok(false) {
            index := startIndex;
          }
        }
      } else {
        index := startIndex;
      }
    }

    method WhileLoop() returns (r: Outcome)
      requires Valid()
      modifies this
      ensures Valid() && Exec(r, index) == Grammar.WhileLoop(tokens, old(index))
      decreases |tokens| - index, 11
    {
      var startIndex := index;
      var ok := Accept("while");
      if ok { ok := Accept("("); }
      if ok { ok := BoolExpr(); }
      if ok { ok := Accept(")"); }
      if !ok {
        index := startIndex;
        return Ok(false);
      }
      r := Stmt();
      if r == Ok(false) {
        index := startIndex;
      }
    }

    method Block() returns (r: Outcome)
      requires Valid()
      modifies this
      ensures Valid() && Exec(r, index) == Grammar.Block(tokens, old(index))
      decreases |tokens| - index, 11
    {
      var startIndex := index;
      var ok := Accept("{");
      if ok {
        while true
          invariant Valid() && startIndex < index
          invariant Grammar.BlockBody(tokens, index) == Grammar.BlockBody(tokens, startIndex + 1)
          decreases |tokens| - index
        {
          ghost var before := index;
          var more := Stmt();
          if more == NullDeref {
            return NullDeref;
          }
          if more == Ok(false) {
            assert Grammar.BlockBody(tokens, before) == Exec(Ok(true), index);
            break;
          }
        }
        ok := Accept("}");
        if ok {
          return Ok(true);
        }
      }
      index := startIndex;
      r := Ok(false);
    }

    method AssignStmt() returns (ok: bool)
      requires Valid()
      modifies this
      ensures Valid() && Step(ok, index) == Grammar.AssignStmt(tokens, old(index))
      decreases |tokens| - index, 0
    {
      if index >= |tokens| {
        return false;
      }
      if Grammar.IsIdentifier(Some(tokens[index])) != Ok(true) {
        return false;
      }
      index := index + 1;
      if index >= |tokens| || tokens[index] != "=" {
        return false;
      }
      index := index + 1;
      if index >= |tokens| {
        return false;
      }
      ok := Expr();
    }

    method DeclareStmt() returns (r: Outcome)
      requires Valid()
      modifies this
      ensures Valid() && Exec(r, index) == Grammar.DeclareStmt(tokens, old(index))
      decreases |tokens| - index, 1
    {
      var ok := Accept("int");
      if !ok { ok := Accept("float"); }
      if !ok {
        return Ok(false);
      }
      var token := Peek();
      r := Grammar.IsIdentifier(token);
      if r != Ok(true) {
        return;
      }
      index := index + 1;
      r := DeclareList();
    }

    /** The loop `while (accept(",")) { ... index++; }` of `declareStmt`,
        together with its final `return true`. */
    method DeclareList() returns (r: Outcome)
      requires Valid()
      modifies this
      ensures Valid() && Exec(r, index) == Grammar.DeclareTail(tokens, old(index))
    {
      while true
        invariant Valid()
        invariant Grammar.DeclareTail(tokens, index) == Grammar.DeclareTail(tokens, old(index))
        decreases |tokens| - index
      {
        var ok := Accept(",");
        if !ok {
          break;
        }
        var token := Peek();
        r := Grammar.IsIdentifier(token);
        if r != Ok(true) {
          return;
        }
        index := index + 1;
      }
      r := Ok(true);
    }

    method Expr() returns (ok: bool)
      requires Valid()
      modifies this
      ensures Valid() && Step(ok, index) == Grammar.Expr(tokens, old(index))
      decreases |tokens| - index, 3
    {
      ok := Term();
      if !ok {
        return;
      }
      while true
        invariant Valid() && old(index) <= index
        invariant Grammar.ExprTail(tokens, index) == Grammar.Expr(tokens, old(index))
        decreases |tokens| - index
      {
        var op := Accept("+");
        if !op { op := Accept("-"); }
        if !op {
          return true;
        }
        ok := Term();
        if !ok {
          return false;
        }
      }
    }

    method Term() returns (ok: bool)
      requires Valid()
      modifies this
      ensures Valid() && Step(ok, index) == Grammar.Term(tokens, old(index))
      decreases |tokens| - index, 1
    {
      ok := Factor();
      if !ok {
        return;
      }
      while true
        invariant Valid() && old(index) <= index
        invariant Grammar.TermTail(tokens, index) == Grammar.Term(tokens, old(index))
        decreases |tokens| - index
      {
        var op := Accept("*");
        if !op { op := Accept("/"); }
        if !op { op := Accept("%"); }
        if !op {
          return true;
        }
        ok := Factor();
        if !ok {
          return false;
        }
      }
    }

    method Factor() returns (ok: bool)
      requires Valid()
      modifies this
      ensures Valid() && Step(ok, index) == Grammar.Factor(tokens, old(index))
      decreases |tokens| - index, 0
    {
      ok := Accept("ID");
      if ok {
        return;
      }
      ok := Accept("INT_LIT");
      if ok {
        return;
      }
      ok := Accept("FLOAT_LIT");
      if ok {
        return;
      }
      ok := Accept("LEFTPAREN");
      if ok {
        ok := Expr();
        if ok {
          ok := Accept("RIGHTPAREN");
          if ok {
            return true;
          }
        }
      }
      return false;
    }

    method BoolExpr() returns (ok: bool)
      requires Valid()
      modifies this
      ensures Valid() && Step(ok, index) == Grammar.BoolExpr(tokens, old(index))
      decreases |tokens| - index, 10
    {
      ok := BTerm();
    }

    method BTerm() returns (ok: bool)
      requires Valid()
      modifies this
      ensures Valid() && Step(ok, index) == Grammar.BTerm(tokens, old(index))
      decreases |tokens| - index, 9
    {
      ok := BAnd();
      if !ok {
        return;
      }
      while true
        invariant Valid() && old(index) <= index
        invariant Grammar.BTermTail(tokens, index) == Grammar.BTerm(tokens, old(index))
        decreases |tokens| - index
      {
        var op := Accept("==");
        if !op { op := Accept("!="); }
        if !op {
          return true;
        }
        ok := BAnd();
        if !ok {
          return false;
        }
      }
    }

    method BAnd() returns (ok: bool)
      requires Valid()
      modifies this
      ensures Valid() && Step(ok, index) == Grammar.BAnd(tokens, old(index))
      decreases |tokens| - index, 7
    {
      ok := BOr();
      if !ok {
        return;
      }
      while true
        invariant Valid() && old(index) <= index
        invariant Grammar.BAndTail(tokens, index) == Grammar.BAnd(tokens, old(index))
        decreases |tokens| - index
      {
        var op := Accept("&&");
        if !op {
          return true;
        }
        ok := BOr();
        if !ok {
          return false;
        }
      }
    }

    method BOr() returns (ok: bool)
      requires Valid()
      modifies this
      ensures Valid() && Step(ok, index) == Grammar.BOr(tokens, old(index))
      decreases |tokens| - index, 5
    {
      ok := Expr();
      if !ok {
        return;
      }
      while true
        invariant Valid() && old(index) <= index
        invariant Grammar.BOrTail(tokens, index) == Grammar.BOr(tokens, old(index))
        decreases |tokens| - index
      {
        var op := Accept("OR");
        if !op {
          return true;
        }
        ok := Expr();
        if !ok {
          return false;
        }
      }
    }
  }
}
