/** Reference semantics of the backtracking recursive-descent acceptor.
    Every grammar procedure of `RecursiveDescentParser` is a function of the
    token list and the cursor value on entry; it returns the procedure's
    result together with the cursor value on exit. The functions follow the
    Java code literally, including the places where a failing procedure
    leaves the cursor advanced, and the exact token strings it compares
    against. Their contracts state the cursor discipline of each procedure. */
module Grammar {
  import opened JavaString

  datatype Option<T> = None | Some(value: T)

  /** How a procedure that may throw ends: with a boolean result, or with
      the NullPointerException of `isIdentifier(null)`. */
  datatype Outcome = Ok(accepted: bool) | NullDeref

  /** Result and exit cursor of a procedure that cannot throw. */
  datatype Step = Step(ok: bool, pos: nat)

  /** Result and exit cursor of a procedure that can throw. */
  datatype Exec = Exec(out: Outcome, pos: nat)

  /** The exact token strings the statement alternatives of the parser begin
      with (or, for `=`, continue with): `if`, `while`, `{`, `=`, `int`,
      `float`. */
  const ParserKeywords: set<string> := {"if", "while", "{", "=", "int", "float"}

  /** The names `accept` treats as prefixes rather than exact tokens. */
  predicate IsPrefixName(name: string) {
    name == "ID:" || name == "INT_LIT:" || name == "FLOAT_LIT:"
  }

  /** Whether `accept(name)` takes `token`: a token it takes always begins
      with the name, and the name itself is always taken. */
  predicate Matches(token: string, name: string)
    ensures Matches(token, name) ==> |name| <= |token| && token[..|name|] == name
    ensures token == name ==> Matches(token, name)
  {
    if IsPrefixName(name) then StartsWith(token, name) else token == name
  }

  /** `accept`: consumes the current token when it matches `name`. */
  function Accept(toks: seq<string>, i: nat, name: string): (r: Step)
    requires i <= |toks|
    ensures r.ok <==> i < |toks| && Matches(toks[i], name)
    ensures r.pos == if r.ok then i + 1 else i
  {
    if i < |toks| then
      if IsPrefixName(name) then
        if StartsWith(toks[i], name) then Step(true, i + 1) else Step(false, i)
      else
        if toks[i] == name then Step(true, i + 1) else Step(false, i)
    else Step(false, i)
  }

  /** `peek`: the current token, or null at the end of the input. */
  function Peek(toks: seq<string>, i: nat): (r: Option<string>)
    requires i <= |toks|
    ensures r.None? <==> i == |toks|
    ensures r.Some? ==> r.value == toks[i]
  {
    if i < |toks| then Some(toks[i]) else None
  }

  /** `isIdentifier`: `token.startsWith("ID:")`, which throws on null. */
  function IsIdentifier(token: Option<string>): (r: Outcome)
    ensures r == NullDeref <==> token.None?
    ensures r == Ok(true) <==> token.Some? && StartsWith(token.value, "ID:")
  {
    match token
    case None => NullDeref
    case Some(t) => Ok(StartsWith(t, "ID:"))
  }

  /** `parse` from cursor `i` (0 on a fresh parser): one statement, which
      must reach the end of the input. */
  function Parse(toks: seq<string>, i: nat): (r: Outcome)
    requires i <= |toks|
    ensures r == Ok(true) ==> i < |toks| && toks[|toks| - 1] == "SEMICOLON"
    ensures r == Ok(true) <==> Stmt(toks, i) == Exec(Ok(true), |toks|)
  {
    var s := Stmt(toks, i);
    if s.out != Ok(true) then s.out else Ok(s.pos >= |toks|)
  }

  /** `stmt`: the five alternatives in order, each tried from wherever the
      previous one left the cursor, then an exact `SEMICOLON`; restores the
      cursor on failure. */
  function Stmt(toks: seq<string>, i: nat): (r: Exec)
    requires i <= |toks|
    ensures i <= r.pos <= |toks|
    ensures r.out == Ok(false) ==> r.pos == i
    ensures r.out == Ok(true) ==> i < r.pos && toks[r.pos - 1] == "SEMICOLON"
    decreases |toks| - i, 13
  {
    var a := IfStatement(toks, i);
    var b := if a.out == Ok(false) then WhileLoop(toks, a.pos) else a;
    var c := if b.out == Ok(false) then Block(toks, b.pos) else b;
    var d := if c.out == Ok(false) then (var s := AssignStmt(toks, c.pos); Exec(Ok(s.ok), s.pos)) else c;
    var e := if d.out == Ok(false) then DeclareStmt(toks, d.pos) else d;
    match e.out
    case NullDeref => e
    case Ok(false) => Exec(Ok(false), i)
    case Ok(true) =>
      var semi := Accept(toks, e.pos, "SEMICOLON");
      if semi.ok then Exec(Ok(true), semi.pos) else Exec(Ok(false), i)
  }

  /** `ifStatement`: `if ( boolExpr ) stmt [else stmt]`, restoring the cursor
      on failure, also when `else` was consumed but its statement fails. */
  function IfStatement(toks: seq<string>, i: nat): (r: Exec)
    requires i <= |toks|
    ensures i <= r.pos <= |toks|
    ensures r.out == Ok(false) ==> r.pos == i
    ensures r.out == Ok(true) ==> i + 5 <= r.pos && toks[i] == "if" && toks[i + 1] == "("
    ensures r.out == Ok(true) ==> toks[r.pos - 1] == "SEMICOLON"
    ensures r.out == NullDeref ==> i < |toks| && toks[i] == "if"
    decreases |toks| - i, 11
  {
    var a := Accept(toks, i, "if");
    if !a.ok then Exec(Ok(false), i) else
    var b := Accept(toks, a.pos, "(");
    if !b.ok then Exec(Ok(false), i) else
    var c := BoolExpr(toks, b.pos);
    if !c.ok then Exec(Ok(false), i) else
    var d := Accept(toks, c.pos, ")");
    if !d.ok then Exec(Ok(false), i) else
    var e := Stmt(toks, d.pos);
    match e.out
    case NullDeref => e
    case Ok(false) => Exec(Ok(false), i)
    case Ok(true) =>
      var f := Accept(toks, e.pos, "else");
      if !f.ok then Exec(Ok(true), f.pos) else
      var g := Stmt(toks, f.pos);
      if g.out == Ok(false) then Exec(Ok(false), i) else g
  }

  /** `whileLoop`: `while ( boolExpr ) stmt`, restoring the cursor on failure. */
  function WhileLoop(toks: seq<string>, i: nat): (r: Exec)
    requires i <= |toks|
    ensures i <= r.pos <= |toks|
    ensures r.out == Ok(false) ==> r.pos == i
    ensures r.out == Ok(true) ==> i + 5 <= r.pos && toks[i] == "while" && toks[i + 1] == "("
    ensures r.out == Ok(true) ==> toks[r.pos - 1] == "SEMICOLON"
    ensures r.out == NullDeref ==> i < |toks| && toks[i] == "while"
    decreases |toks| - i, 11
  {
    var a := Accept(toks, i, "while");
    if !a.ok then Exec(Ok(false), i) else
    var b := Accept(toks, a.pos, "(");
    if !b.ok then Exec(Ok(false), i) else
    var c := BoolExpr(toks, b.pos);
    if !c.ok then Exec(Ok(false), i) else
    var d := Accept(toks, c.pos, ")");
    if !d.ok then Exec(Ok(false), i) else
    var e := Stmt(toks, d.pos);
    if e.out == Ok(false) then Exec(Ok(false), i) else e
  }

  /** `block`: `{`, then `stmt` as long as it succeeds, then `}`; restores
      the cursor on failure. */
  function Block(toks: seq<string>, i: nat): (r: Exec)
    requires i <= |toks|
    ensures i <= r.pos <= |toks|
    ensures r.out == Ok(false) ==> r.pos == i
    ensures r.out == Ok(true) ==> i + 2 <= r.pos && toks[i] == "{" && toks[r.pos - 1] == "}"
    ensures r.out == NullDeref ==> i < |toks| && toks[i] == "{"
    decreases |toks| - i, 11
  {
    var a := Accept(toks, i, "{");
    if !a.ok then Exec(Ok(false), i) else
    var b := BlockBody(toks, a.pos);
    if b.out == NullDeref then b else
    var c := Accept(toks, b.pos, "}");
    if c.ok then Exec(Ok(true), c.pos) else Exec(Ok(false), i)
  }

  /** The loop `while (stmt()) {}` of `block`: ends normally (`Ok(true)`) at
      the cursor where `stmt` failed, or by an exception. */
  function BlockBody(toks: seq<string>, j: nat): (r: Exec)
    requires j <= |toks|
    ensures j <= r.pos <= |toks|
    ensures r.out != Ok(false)
    ensures r.out == Ok(true) ==> Stmt(toks, r.pos).out == Ok(false)
    decreases |toks| - j, 14
  {
    var s := Stmt(toks, j);
    match s.out
    case Ok(true) => BlockBody(toks, s.pos)
    case Ok(false) => Exec(Ok(true), s.pos)
    case NullDeref => s
  }

  /** `assignStmt`: identifier, exact `=`, expression. Not transactional: it
      fails one past the identifier when no `=` follows, and wherever `expr`
      fails. */
  function AssignStmt(toks: seq<string>, i: nat): (r: Step)
    requires i <= |toks|
    ensures i <= r.pos <= |toks|
    ensures r.pos == i <==> !(i < |toks| && StartsWith(toks[i], "ID:"))
    ensures r.ok ==> i + 3 <= r.pos && StartsWith(toks[i], "ID:") && toks[i + 1] == "="
    ensures i < |toks| && StartsWith(toks[i], "ID:") && (i + 1 == |toks| || toks[i + 1] != "=")
      ==> r == Step(false, i + 1)
    decreases |toks| - i, 0
  {
    if i >= |toks| then Step(false, i)
    else if IsIdentifier(Some(toks[i])) != Ok(true) then Step(false, i)
    else
      var j := i + 1;
      if j >= |toks| || toks[j] != "=" then Step(false, j)
      else
        var k := j + 1;
        if k >= |toks| then Step(false, k)
        else Expr(toks, k)
  }

  /** `declareStmt`: `int` or `float`, an identifier, then `, identifier`
      repeatedly. Not transactional, and it calls `isIdentifier(peek())`
      without checking for the end of the input. */
  function DeclareStmt(toks: seq<string>, i: nat): (r: Exec)
    requires i <= |toks|
    ensures i <= r.pos <= |toks|
    ensures r.pos == i <==> !(i < |toks| && (toks[i] == "int" || toks[i] == "float"))
    ensures r.pos == i ==> r.out == Ok(false)
    ensures r.out == Ok(true) ==>
      i + 2 <= r.pos && (toks[i] == "int" || toks[i] == "float") && StartsWith(toks[r.pos - 1], "ID:")
    ensures r.out == NullDeref ==>
      r.pos == |toks| && i < r.pos && toks[r.pos - 1] in {"int", "float", ","}
    ensures i + 1 == |toks| && (toks[i] == "int" || toks[i] == "float") ==> r.out == NullDeref
    decreases |toks| - i, 1
  {
    var a := Accept(toks, i, "int");
    var b := if a.ok then a else Accept(toks, a.pos, "float");
    if !b.ok then Exec(Ok(false), b.pos) else
    var id := IsIdentifier(Peek(toks, b.pos));
    if id != Ok(true) then Exec(id, b.pos)
    else DeclareTail(toks, b.pos + 1)
  }

  /** The loop `while (accept(",")) { ... index++; }` of `declareStmt`. */
  function DeclareTail(toks: seq<string>, j: nat): (r: Exec)
    requires j <= |toks|
    ensures j <= r.pos <= |toks|
    ensures r.out == Ok(true) ==> r.pos == j || StartsWith(toks[r.pos - 1], "ID:")
    ensures r.out == Ok(false) ==>
      j < r.pos < |toks| && toks[r.pos - 1] == "," && !StartsWith(toks[r.pos], "ID:")
    ensures r.out == NullDeref ==> r.pos == |toks| && j < r.pos && toks[r.pos - 1] == ","
    ensures j + 1 == |toks| && toks[j] == "," ==> r.out == NullDeref
    decreases |toks| - j, 0
  {
    var c := Accept(toks, j, ",");
    if !c.ok then Exec(Ok(true), c.pos) else
    var id := IsIdentifier(Peek(toks, c.pos));
    if id != Ok(true) then Exec(id, c.pos)
    else DeclareTail(toks, c.pos + 1)
  }

  /** `expr`: term, then `+`/`-` term repeatedly. */
  function Expr(toks: seq<string>, i: nat): (r: Step)
    requires i <= |toks|
    ensures i <= r.pos <= |toks|
    ensures r.ok ==> i < r.pos
    decreases |toks| - i, 3
  {
    var t := Term(toks, i);
    if !t.ok then t else ExprTail(toks, t.pos)
  }

  /** The loop `while (accept("+") || accept("-"))` of `expr`. */
  function ExprTail(toks: seq<string>, j: nat): (r: Step)
    requires j <= |toks|
    ensures j <= r.pos <= |toks|
    ensures !r.ok ==> j < r.pos && toks[j] in {"+", "-"}
    decreases |toks| - j, 2
  {
    var a := Accept(toks, j, "+");
    var b := if a.ok then a else Accept(toks, a.pos, "-");
    if !b.ok then Step(true, b.pos) else
    var t := Term(toks, b.pos);
    if !t.ok then t else ExprTail(toks, t.pos)
  }

  /** `term`: factor, then `*`/`/`/`%` factor repeatedly. */
  function Term(toks: seq<string>, i: nat): (r: Step)
    requires i <= |toks|
    ensures i <= r.pos <= |toks|
    ensures r.ok ==> i < r.pos
    decreases |toks| - i, 1
  {
    var f := Factor(toks, i);
    if !f.ok then f else TermTail(toks, f.pos)
  }

  /** The loop `while (accept("*") || accept("/") || accept("%"))` of `term`. */
  function TermTail(toks: seq<string>, j: nat): (r: Step)
    requires j <= |toks|
    ensures j <= r.pos <= |toks|
    ensures !r.ok ==> j < r.pos && toks[j] in {"*", "/", "%"}
    decreases |toks| - j, 0
  {
    var a := Accept(toks, j, "*");
    var b := if a.ok then a else Accept(toks, a.pos, "/");
    var c := if b.ok then b else Accept(toks, b.pos, "%");
    if !c.ok then Step(true, c.pos) else
    var f := Factor(toks, c.pos);
    if !f.ok then f else TermTail(toks, f.pos)
  }

  /** `factor`: the exact tokens `ID`, `INT_LIT` or `FLOAT_LIT`, or
      `LEFTPAREN expr RIGHTPAREN`. */
  function Factor(toks: seq<string>, i: nat): (r: Step)
    requires i <= |toks|
    ensures i <= r.pos <= |toks|
    ensures r.ok ==> i < r.pos
    ensures r.pos != i ==> toks[i] in {"ID", "INT_LIT", "FLOAT_LIT", "LEFTPAREN"}
    decreases |toks| - i, 0
  {
    var a := Accept(toks, i, "ID");
    if a.ok then a else
    var b := Accept(toks, a.pos, "INT_LIT");
    if b.ok then b else
    var c := Accept(toks, b.pos, "FLOAT_LIT");
    if c.ok then c else
    var d := Accept(toks, c.pos, "LEFTPAREN");
    if !d.ok then d else
    var e := Expr(toks, d.pos);
    if !e.ok then e else Accept(toks, e.pos, "RIGHTPAREN")
  }

  /** `boolExpr`: just `bterm`. */
  function BoolExpr(toks: seq<string>, i: nat): (r: Step)
    requires i <= |toks|
    ensures i <= r.pos <= |toks|
    ensures r.ok ==> i < r.pos
    decreases |toks| - i, 10
  {
    BTerm(toks, i)
  }

  /** `bterm`: band, then `==`/`!=` band repeatedly. */
  function BTerm(toks: seq<string>, i: nat): (r: Step)
    requires i <= |toks|
    ensures i <= r.pos <= |toks|
    ensures r.ok ==> i < r.pos
    decreases |toks| - i, 9
  {
    var b := BAnd(toks, i);
    if !b.ok then b else BTermTail(toks, b.pos)
  }

  function BTermTail(toks: seq<string>, j: nat): (r: Step)
    requires j <= |toks|
    ensures j <= r.pos <= |toks|
    ensures !r.ok ==> j < r.pos && toks[j] in {"==", "!="}
    decreases |toks| - j, 8
  {
    var a := Accept(toks, j, "==");
    var b := if a.ok then a else Accept(toks, a.pos, "!=");
    if !b.ok then Step(true, b.pos) else
    var c := BAnd(toks, b.pos);
    if !c.ok then c else BTermTail(toks, c.pos)
  }

  /** `band`: bor, then `&&` bor repeatedly. */
  function BAnd(toks: seq<string>, i: nat): (r: Step)
    requires i <= |toks|
    ensures i <= r.pos <= |toks|
    ensures r.ok ==> i < r.pos
    decreases |toks| - i, 7
  {
    var b := BOr(toks, i);
    if !b.ok then b else BAndTail(toks, b.pos)
  }

  function BAndTail(toks: seq<string>, j: nat): (r: Step)
    requires j <= |toks|
    ensures j <= r.pos <= |toks|
    ensures !r.ok ==> j < r.pos && toks[j] in {"&&"}
    decreases |toks| - j, 6
  {
    var a := Accept(toks, j, "&&");
    if !a.ok then Step(true, a.pos) else
    var c := BOr(toks, a.pos);
    if !c.ok then c else BAndTail(toks, c.pos)
  }

  /** `bor`: expr, then `OR` expr repeatedly. */
  function BOr(toks: seq<string>, i: nat): (r: Step)
    requires i <= |toks|
    ensures i <= r.pos <= |toks|
    ensures r.ok ==> i < r.pos
    decreases |toks| - i, 5
  {
    var e := Expr(toks, i);
    if !e.ok then e else BOrTail(toks, e.pos)
  }

  function BOrTail(toks: seq<string>, j: nat): (r: Step)
    requires j <= |toks|
    ensures j <= r.pos <= |toks|
    ensures !r.ok ==> j < r.pos && toks[j] in {"OR"}
    decreases |toks| - j, 4
  {
    var a := Accept(toks, j, "OR");
    if !a.ok then Step(true, a.pos) else
    var e := Expr(toks, a.pos);
    if !e.ok then e else BOrTail(toks, e.pos)
  }
}
