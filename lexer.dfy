/** The lexer: `RecursiveDescentParser.tokenize`. The source text is padded
    with spaces around each of nineteen delimiters (in a fixed order), trimmed,
    its whitespace runs collapsed, split on single spaces, and each word is
    replaced by its classification. */
module Lexer {
  import opened JavaString
  import Grammar

  /** The delimiters, in the order in which they are padded. */
  const Delimiters: seq<string> :=
    ["(", ")", "{", "}", ";", "+", "-", "*", "/", "%", ">", "<", ">=", "<=", "==", "!=", "&&", "||", "="]

  /** The kind name each symbol of the `switch` is rewritten to. */
  const Symbols: map<string, string> :=
    map["(" := "LEFTPAREN", ")" := "RIGHTPAREN", "=" := "EQUALS", "{" := "LEFTBRACKET",
        "}" := "RIGHTBRACKET", ";" := "SEMICOLON", "+" := "PLUS", "-" := "MINUS",
        "*" := "MULTIPLY", "/" := "DIVIDE", "%" := "MODULO", ">" := "GREATER", "<" := "LESS",
        ">=" := "GREATEREQUAL", "<=" := "LESSEQUAL", "==" := "EQUALTO", "!=" := "NOTEQUAL",
        "&&" := "AND", "||" := "OR"]

  /** The characters a delimiter can start with. */
  predicate IsDelimiterChar(c: char) {
    c in "(){};+-*/%><=!&|"
  }

  /** The text after padding the first `k` delimiters. */
  function PadPrefix(s: string, k: nat): (r: string)
    requires k <= |Delimiters|
    ensures |r| >= |s|
  {
    if k == 0 then s
    else Replace(PadPrefix(s, k - 1), Delimiters[k - 1], " " + Delimiters[k - 1] + " ")
  }

  /** The text after the whole padding loop. */
  function Pad(s: string): (r: string)
    ensures |r| >= |s|
  {
    PadPrefix(s, |Delimiters|)
  }

  /** The raw words: trim, collapse whitespace runs, split on single spaces. */
  function Words(s: string): (r: seq<string>)
    ensures |r| >= 1
  {
    var t := Trim(Pad(s));
    var c := CollapseWs(t);
    assert |c| > 0 ==> c[|c| - 1] == Norm(t[|t| - 1]) != ' ';
    SplitNonEmpty(c);
    Split(c)
  }

  /** A text that does not end in a space splits into at least one word. */
  lemma SplitNonEmpty(c: string)
    requires |c| == 0 || c[|c| - 1] != ' '
    ensures |Split(c)| >= 1
  {
  }

  predicate IsDigit(c: char) { '0' <= c <= '9' }

  predicate IsLetter(c: char) { 'a' <= c <= 'z' || 'A' <= c <= 'Z' }

  /** `w.matches("\\d+")`; such a word has no letter, so it never also
      matches `[a-zA-Z]+`. */
  predicate IsDigits(w: string)
    ensures IsDigits(w) ==> !IsLetters(w)
  {
    |w| > 0 && forall k :: 0 <= k < |w| ==> IsDigit(w[k])
  }

  /** `w.matches("\\d+\\.\\d+")` */
  predicate IsFloat(w: string)
    ensures IsFloat(w) ==> '.' in w && !IsDigits(w) && !IsLetters(w)
  {
    exists k :: 0 <= k < |w| && w[k] == '.' && IsDigits(w[..k]) && IsDigits(w[k + 1..])
  }

  /** `w.matches("[a-zA-Z]+")` */
  predicate IsLetters(w: string)
    ensures IsLetters(w) ==> |w| > 0 && !IsDigit(w[0]) && '.' !in w
  {
    |w| > 0 && forall k :: 0 <= k < |w| ==> IsLetter(w[k])
  }

  /** What one word is rewritten to, tested in the source's order: it is
      either left as it is or given a name starting with an upper-case
      letter. */
  function Classify(w: string): (r: string)
    ensures r == w || (|r| > 0 && 'A' <= r[0] <= 'Z')
  {
    if IsDigits(w) then "INT_LIT:" + w
    else if IsFloat(w) then "FLOAT_LIT:" + w
    else if IsLetters(w) then "ID:" + w
    else if w in Symbols then SymbolKindsUpper(w); Symbols[w]
    else w
  }

  /** The token list `tokenize` returns. */
  function Lex(s: string): (r: seq<string>)
    ensures |r| >= 1
  {
    var words := Words(s);
    seq(|words|, i requires 0 <= i < |words| => Classify(words[i]))
  }

  /** `tokenize`: the padding loop reassigns the text, then the word list is
      rewritten in place, one entry per iteration (`tokens.set(i, ...)`). */
  method Tokenize(input: string) returns (tokens: seq<string>)
    ensures |tokens| == |Words(input)|
    ensures forall i :: 0 <= i < |tokens| ==> tokens[i] == Classify(Words(input)[i])
  {
    var s := input;
    for k := 0 to |Delimiters|
      invariant s == PadPrefix(input, k)
    {
      s := Replace(s, Delimiters[k], " " + Delimiters[k] + " ");
    }
    s := CollapseWs(Trim(s));
    tokens := Split(s);
    ghost var words := tokens;
    for i := 0 to |tokens|
      invariant |tokens| == |words|
      invariant forall j :: 0 <= j < i ==> tokens[j] == Classify(words[j])
      invariant forall j :: i <= j < |tokens| ==> tokens[j] == words[j]
    {
      tokens := tokens[i := Classify(tokens[i])];
    }
  }

  // ---------------------------------------------------------------------
  // Properties of the classification
  // ---------------------------------------------------------------------

  /** Every kind name of the `switch` starts with an upper-case letter. */
  lemma SymbolKindsUpper(w: string)
    requires w in Symbols
    ensures |Symbols[w]| > 0 && 'A' <= Symbols[w][0] <= 'Z'
  {
  }

  /** Each comparison kind name belongs to exactly one symbol. */
  lemma SymbolComparisonKinds(w: string)
    requires w in Symbols
    ensures Symbols[w] == "GREATEREQUAL" ==> w == ">="
    ensures Symbols[w] == "LESSEQUAL" ==> w == "<="
    ensures Symbols[w] == "EQUALTO" ==> w == "=="
    ensures Symbols[w] == "NOTEQUAL" ==> w == "!="
  {
  }

  /** The lexer never emits any of them. */
  lemma ClassifyAvoidsKeywords(w: string)
    ensures Classify(w) !in Grammar.ParserKeywords
  {
    var r := Classify(w);
    if IsDigits(w) {
      assert r[0] == 'I';
    } else if IsFloat(w) {
      assert r[0] == 'F';
    } else if IsLetters(w) {
      assert r[0] == 'I';
    } else if w in Symbols {
      SymbolKindsUpper(w);
    } else {
      assert IsLetters("if") && IsLetters("while") && IsLetters("int") && IsLetters("float");
    }
  }

  /** Hence no token of `tokenize` is one of those strings. */
  lemma LexAvoidsKeywords(s: string)
    ensures forall k :: 0 <= k < |Lex(s)| ==> Lex(s)[k] !in Grammar.ParserKeywords
  {
    forall k | 0 <= k < |Lex(s)|
      ensures Lex(s)[k] !in Grammar.ParserKeywords
    {
      ClassifyAvoidsKeywords(Words(s)[k]);
    }
  }

  /** The kind names of the two-character comparison operators can only come
      from the corresponding words. */
  lemma ClassifyComparisonKinds(w: string)
    ensures Classify(w) == "GREATEREQUAL" ==> w == ">="
    ensures Classify(w) == "LESSEQUAL" ==> w == "<="
    ensures Classify(w) == "EQUALTO" ==> w == "=="
    ensures Classify(w) == "NOTEQUAL" ==> w == "!="
  {
    var r := Classify(w);
    if IsDigits(w) {
      assert r[0] == 'I';
    } else if IsFloat(w) {
      assert r[0] == 'F';
    } else if IsLetters(w) {
      assert r[0] == 'I';
    } else if w in Symbols {
      SymbolComparisonKinds(w);
    } else {
      assert IsLetters("GREATEREQUAL") && IsLetters("LESSEQUAL");
      assert IsLetters("EQUALTO") && IsLetters("NOTEQUAL");
    }
  }

  /** `3.14` stays one word (`.` is no delimiter) and reaches the float branch. */
  lemma FloatBranchReachable()
    ensures Classify("3.14") == "FLOAT_LIT:3.14"
    ensures Lex("3.14") == ["FLOAT_LIT:3.14"]
  {
    var w := "3.14";
    assert forall j :: 0 <= j < |w| ==> w[j] > ' ' && !IsDelimiterChar(w[j]);
    SingleWord(w);
    FloatClassified();
  }

  lemma FloatClassified()
    ensures Classify("3.14") == "FLOAT_LIT:3.14"
  {
    assert IsFloat("3.14") by {
      assert "3.14"[1] == '.' && IsDigits("3.14"[..1]) && IsDigits("3.14"[2..]);
    }
  }

  // ---------------------------------------------------------------------
  // Properties of the word list
  // ---------------------------------------------------------------------

  /** Every `=` of `s` is preceded by a space (or starts `s`) and followed
      by a space (or ends `s`). */
  predicate EqIsolated(s: string) {
    forall k :: 0 <= k < |s| && s[k] == '=' ==>
      (k == 0 || s[k - 1] == ' ') && (k == |s| - 1 || s[k + 1] == ' ')
  }

  lemma EqIsolatedSlice(s: string, a: nat, b: nat)
    requires a <= b <= |s| && EqIsolated(s)
    ensures EqIsolated(s[a..b])
  {
    var t := s[a..b];
    forall k | 0 <= k < |t| && t[k] == '='
      ensures (k == 0 || t[k - 1] == ' ') && (k == |t| - 1 || t[k + 1] == ' ')
    {
      assert s[a + k] == '=';
    }
  }

  /** Prepending one character keeps `=` isolated when it neither is an `=`
      glued to the text nor is glued to an `=`. */
  lemma EqIsolatedCons(c: char, x: string)
    requires EqIsolated(x)
    requires c == '=' ==> |x| == 0 || x[0] == ' '
    requires |x| > 0 && x[0] == '=' ==> c == ' '
    ensures EqIsolated([c] + x)
  {
    var r := [c] + x;
    forall k | 0 <= k < |r| && r[k] == '='
      ensures (k == 0 || r[k - 1] == ' ') && (k == |r| - 1 || r[k + 1] == ' ')
    {
      if k > 0 { assert x[k - 1] == '='; }
    }
  }

  /** Padding `=` last leaves every `=` flanked by spaces. */
  lemma {:induction false} ReplaceEqIsolates(s: string)
    ensures EqIsolated(Replace(s, "=", " = "))
    ensures |Replace(s, "=", " = ")| > 0 ==> Replace(s, "=", " = ")[0] != '='
    decreases |s|
  {
    if |s| >= 1 {
      var x := Replace(s[1..], "=", " = ");
      ReplaceEqIsolates(s[1..]);
      if s[..1] == "=" {
        EqIsolatedCons(' ', x);
        EqIsolatedCons('=', [' '] + x);
        EqIsolatedCons(' ', ['='] + ([' '] + x));
        assert Replace(s, "=", " = ") == [' '] + (['='] + ([' '] + x));
      } else {
        assert s[0] != '=' by { assert s[..1] == [s[0]]; }
        EqIsolatedCons(s[0], x);
        assert Replace(s, "=", " = ") == [s[0]] + x;
      }
    }
  }

  /** Collapsing whitespace keeps every `=` isolated. */
  lemma {:induction false} CollapseKeepsEqIsolated(s: string)
    requires EqIsolated(s)
    ensures EqIsolated(CollapseWs(s))
    decreases |s|
  {
    if |s| > 0 {
      if IsWs(s[0]) {
        var rest := SkipWs(s[1..]);
        EqIsolatedSlice(s, |s| - |rest|, |s|);
        CollapseKeepsEqIsolated(rest);
        EqIsolatedCons(' ', CollapseWs(rest));
        assert CollapseWs(s) == [' '] + CollapseWs(rest);
      } else {
        EqIsolatedSlice(s, 1, |s|);
        assert s[1..|s|] == s[1..];
        CollapseKeepsEqIsolated(s[1..]);
        var x := CollapseWs(s[1..]);
        assert |x| > 0 ==> x[0] == Norm(s[1]);
        EqIsolatedCons(s[0], x);
        assert CollapseWs(s) == [s[0]] + x;
      }
    }
  }

  /** Each piece of a string whose `=` are isolated has its `=` isolated. */
  lemma {:induction false} PiecesKeepEqIsolated(s: string)
    requires EqIsolated(s)
    ensures forall k :: 0 <= k < |Pieces(s)| ==> EqIsolated(Pieces(s)[k])
    decreases |s|
  {
    if |s| > 0 {
      var p := Pieces(s[1..]);
      EqIsolatedSlice(s, 1, |s|);
      assert s[1..|s|] == s[1..];
      PiecesKeepEqIsolated(s[1..]);
      if s[0] == ' ' {
        assert Pieces(s) == [""] + p;
      } else {
        var w := [s[0]] + p[0];
        assert Pieces(s) == [w] + p[1..];
        EqIsolatedSlice(s, 0, |w|);
        assert s[0..|w|] == w;
      }
    }
  }

  /** A word whose `=` are isolated is none of the comparison words. */
  lemma IsolatedNotComparison(w: string)
    requires EqIsolated(w)
    ensures w !in {">=", "<=", "==", "!="}
  {
    if |w| == 2 && w[1] == '=' {
      assert w[0] == ' ';
    }
  }

  /** After padding, every `=` is isolated. */
  lemma PadEqIsolated(s: string)
    ensures EqIsolated(Pad(s))
  {
    var prev := PadPrefix(s, |Delimiters| - 1);
    assert Delimiters[|Delimiters| - 1] == "=" && " " + "=" + " " == " = ";
    assert Pad(s) == Replace(prev, "=", " = ");
    ReplaceEqIsolates(prev);
  }

  /** Trimming keeps every `=` isolated (the result is a slice). */
  lemma TrimKeepsEqIsolated(p: string)
    requires EqIsolated(p)
    ensures EqIsolated(Trim(p))
  {
    var t0 := TrimStart(p);
    EqIsolatedSlice(p, |p| - |t0|, |p|);
    EqIsolatedSlice(t0, 0, |TrimEnd(t0)|);
  }

  /** Every word of the split list has its `=` isolated. */
  lemma WordsEqIsolated(s: string)
    ensures forall k :: 0 <= k < |Words(s)| ==> EqIsolated(Words(s)[k])
  {
    PadEqIsolated(s);
    TrimKeepsEqIsolated(Pad(s));
    CollapseKeepsEqIsolated(Trim(Pad(s)));
    SplitKeepsEqIsolated(CollapseWs(Trim(Pad(s))));
  }

  /** Splitting keeps every `=` isolated. */
  lemma SplitKeepsEqIsolated(c: string)
    requires EqIsolated(c)
    ensures forall k :: 0 <= k < |Split(c)| ==> EqIsolated(Split(c)[k])
  {
    if ' ' in c {
      PiecesKeepEqIsolated(c);
      var ps := Pieces(c);
      assert Split(c) == ps[..|Split(c)|];
    }
  }

  /** The comparison words `>=`, `<=`, `==` and `!=` never survive padding:
      `>` and `<` are padded before them and `=` after them. */
  lemma WordsLackComparisons(s: string)
    ensures forall k :: 0 <= k < |Words(s)| ==> Words(s)[k] !in {">=", "<=", "==", "!="}
  {
    WordsEqIsolated(s);
    forall k | 0 <= k < |Words(s)|
      ensures Words(s)[k] !in {">=", "<=", "==", "!="}
    {
      IsolatedNotComparison(Words(s)[k]);
    }
  }

  /** Consequently the `switch` cases for GREATEREQUAL, LESSEQUAL, EQUALTO
      and NOTEQUAL are dead: no token of `tokenize` is one of these names. */
  lemma LexLacksComparisonKinds(s: string)
    ensures forall k :: 0 <= k < |Lex(s)| ==>
      Lex(s)[k] !in {"GREATEREQUAL", "LESSEQUAL", "EQUALTO", "NOTEQUAL"}
  {
    WordsLackComparisons(s);
    forall k | 0 <= k < |Lex(s)|
      ensures Lex(s)[k] !in {"GREATEREQUAL", "LESSEQUAL", "EQUALTO", "NOTEQUAL"}
    {
      ClassifyComparisonKinds(Words(s)[k]);
    }
  }

  /** No word contains a whitespace character. */
  lemma WordsLackWhitespace(s: string)
    ensures forall k, j :: 0 <= k < |Words(s)| && 0 <= j < |Words(s)[k]| ==> !IsWs(Words(s)[k][j])
  {
    var c := CollapseWs(Trim(Pad(s)));
    forall k, j | 0 <= k < |Words(s)| && 0 <= j < |Words(s)[k]|
      ensures !IsWs(Words(s)[k][j])
    {
      SplitLacksWhitespace(c, k, j);
    }
  }

  /** Splitting a text whose only whitespace is spaces leaves no whitespace. */
  lemma SplitLacksWhitespace(c: string, k: nat, j: nat)
    requires forall m :: 0 <= m < |c| && IsWs(c[m]) ==> c[m] == ' '
    requires k < |Split(c)| && j < |Split(c)[k]|
    ensures !IsWs(Split(c)[k][j])
  {
    var x := Split(c)[k][j];
    assert x != ' ';
    if ' ' !in c {
      assert x == c[j];
    } else {
      var ps := Pieces(c);
      assert Split(c) == DropTrailingEmpty(ps);
      assert Split(c)[k] == ps[k];
      PiecesAreSlices(c, k, j);
    }
  }

  /** Every character of a piece is a character of the split string. */
  lemma {:induction false} PiecesAreSlices(s: string, k: nat, j: nat)
    requires k < |Pieces(s)| && j < |Pieces(s)[k]|
    ensures Pieces(s)[k][j] in s
    decreases |s|
  {
    var p := Pieces(s[1..]);
    if s[0] == ' ' {
      assert Pieces(s) == [""] + p;
      PiecesAreSlices(s[1..], k - 1, j);
    } else if k == 0 {
      if j > 0 {
        assert Pieces(s)[0][j] == p[0][j - 1];
        PiecesAreSlices(s[1..], 0, j - 1);
      }
    } else {
      assert Pieces(s)[k] == p[k];
      PiecesAreSlices(s[1..], k, j);
    }
  }

  /** Padding changes nothing in a text without delimiter characters. */
  lemma {:induction false} PadPrefixAbsent(s: string, k: nat)
    requires k <= |Delimiters|
    requires forall j :: 0 <= j < |s| ==> !IsDelimiterChar(s[j])
    ensures PadPrefix(s, k) == s
  {
    if k > 0 {
      PadPrefixAbsent(s, k - 1);
      var d := Delimiters[k - 1];
      assert IsDelimiterChar(d[0]);
      ReplaceAbsent(s, d, " " + d + " ");
    }
  }

  /** Blank input (only characters <= U+0020) leaves one empty word. */
  lemma BlankWords(s: string)
    requires forall j :: 0 <= j < |s| ==> s[j] <= ' '
    ensures Words(s) == [""]
  {
    PadPrefixAbsent(s, |Delimiters|);
    assert TrimStart(s) == "";
  }

  /** The empty word falls through every test of the classification. */
  lemma EmptyWordUnchanged()
    ensures Classify("") == ""
  {
    assert !IsFloat("");
  }

  /** Blank input yields the one-element list [""]. */
  lemma BlankInput(s: string)
    requires forall j :: 0 <= j < |s| ==> s[j] <= ' '
    ensures Lex(s) == [""]
  {
    BlankWords(s);
    EmptyWordUnchanged();
  }

  /** A word made of characters that are neither blank nor part of a
      delimiter is a word list of its own. */
  lemma SingleWord(w: string)
    requires |w| > 0
    requires forall j :: 0 <= j < |w| ==> w[j] > ' ' && !IsDelimiterChar(w[j])
    ensures Words(w) == [w]
  {
    PadPrefixAbsent(w, |Delimiters|);
    assert TrimStart(w) == w;
    assert TrimEnd(w) == w;
    CollapseNoWs(w);
  }

  /** Padding steps `m` to `k - 1` change nothing when none of their
      delimiters' first characters occurs in the text after step `m - 1`. */
  lemma {:induction false} PadPrefixSteady(s: string, m: nat, k: nat)
    requires m <= k <= |Delimiters|
    requires forall j :: m <= j < k ==> Delimiters[j][0] !in PadPrefix(s, m)
    ensures PadPrefix(s, k) == PadPrefix(s, m)
    decreases k
  {
    if k > m {
      PadPrefixSteady(s, m, k - 1);
      var d := Delimiters[k - 1];
      ReplaceAbsent(PadPrefix(s, m), d, " " + d + " ");
    }
  }

  /** A word of letters only is an identifier. */
  lemma ClassifyLetters(w: string)
    requires IsLetters(w)
    ensures Classify(w) == "ID:" + w
  {
    assert !IsDigit(w[0]);
  }

  /** A symbol of the `switch` is rewritten to its kind name. */
  lemma ClassifySymbol(w: string)
    requires w in Symbols
    ensures Classify(w) == Symbols[w]
  {
    assert !IsDigit(w[0]) && !IsLetter(w[0]);
  }

  /** The tokens are the classified words, one for one. */
  lemma LexAt(s: string, ws: seq<string>)
    requires Words(s) == ws
    ensures |Lex(s)| == |ws|
    ensures forall k :: 0 <= k < |ws| ==> Lex(s)[k] == Classify(ws[k])
  {
  }

  lemma LexThree(s: string, ws: seq<string>, a: string, b: string, c: string)
    requires Words(s) == ws && |ws| == 3
    requires Classify(ws[0]) == a && Classify(ws[1]) == b && Classify(ws[2]) == c
    ensures Lex(s) == [a, b, c]
  {
    LexAt(s, ws);
    SeqOfThree(Lex(s), a, b, c);
  }

  lemma SeqOfThree(l: seq<string>, a: string, b: string, c: string)
    requires |l| == 3 && l[0] == a && l[1] == b && l[2] == c
    ensures l == [a, b, c]
  {
  }

  // ---------------------------------------------------------------------
  // `a&&b` and `a||b`: the logical operators survive as words
  // ---------------------------------------------------------------------

  /** `op` is one of the two logical operators, `n` its place in the
      delimiter list and `kind` the name the `switch` gives it. */
  predicate LogicalOp(op: string, n: nat, kind: string) {
    (op == "&&" && n == 16 && kind == "AND") || (op == "||" && n == 17 && kind == "OR")
  }

  /** The operator's delimiter and those after it; nothing before it occurs
      in `a op b`. */
  lemma OpPrefixUnchanged(s: string, op: string, n: nat, kind: string)
    requires LogicalOp(op, n, kind) && s == "a" + op + "b"
    ensures n < |Delimiters| && Delimiters[n] == op
    ensures PadPrefix(s, n) == s
  {
    if op == "&&" {
      assert forall j :: 0 <= j < 16 ==> Delimiters[j][0] !in s;
    } else {
      assert forall j :: 0 <= j < 17 ==> Delimiters[j][0] !in s;
    }
    assert PadPrefix(s, 0) == s;
    PadPrefixSteady(s, 0, n);
  }

  lemma OpReplaced(s: string, op: string)
    requires (op == "&&" || op == "||") && s == "a" + op + "b"
    ensures Replace(s, op, " " + op + " ") == "a " + op + " b"
  {
    var rest := op + "b";
    assert s[..2] != op && s[1..] == rest;
    assert rest[..2] == op && rest[2..] == "b";
    ReplaceAbsent("b", op, " " + op + " ");
  }

  /** Padding puts one space on each side of the operator, and the later
      delimiters do not occur. */
  lemma OpPadded(s: string, op: string, n: nat, kind: string)
    requires LogicalOp(op, n, kind) && s == "a" + op + "b"
    ensures Pad(s) == "a " + op + " b"
  {
    var t := "a " + op + " b";
    OpPrefixUnchanged(s, op, n, kind);
    OpReplaced(s, op);
    assert PadPrefix(s, n + 1) == t;
    assert forall j :: n + 1 <= j < |Delimiters| ==> Delimiters[j][0] !in t;
    PadPrefixSteady(s, n + 1, |Delimiters|);
  }

  lemma OpCleaned(t: string, op: string)
    requires (op == "&&" || op == "||") && t == "a " + op + " b"
    ensures CollapseWs(Trim(t)) == t
  {
    assert TrimStart(t) == t;
    assert TrimEnd(t) == t;
    assert NoDoubleSpace(t[4..]);
    assert NoDoubleSpace(t[2..]);
    assert NoDoubleSpace(t);
    CollapseIdentity(t);
  }

  lemma OpSplit(t: string, op: string)
    requires (op == "&&" || op == "||") && t == "a " + op + " b"
    ensures Split(t) == ["a", op, "b"]
  {
    var a, m, b := t[..1], t[2..4], t[5..];
    assert a == "a" && m == op && b == "b";
    assert t == a + " " + m + " " + b;
    SplitThreeWords(a, m, b);
  }

  lemma OpWords(s: string, op: string, n: nat, kind: string)
    requires LogicalOp(op, n, kind) && s == "a" + op + "b"
    ensures Words(s) == ["a", op, "b"]
  {
    OpPadded(s, op, n, kind);
    OpCleaned("a " + op + " b", op);
    OpSplit("a " + op + " b", op);
  }

  lemma OpWordsClassified(ws: seq<string>, op: string, n: nat, kind: string)
    requires LogicalOp(op, n, kind) && ws == ["a", op, "b"]
    ensures |ws| == 3
    ensures Classify(ws[0]) == "ID:a" && Classify(ws[1]) == kind && Classify(ws[2]) == "ID:b"
  {
    ClassifyLetters(ws[0]);
    assert op in Symbols && Symbols[op] == kind;
    ClassifySymbol(ws[1]);
    ClassifyLetters(ws[2]);
  }

  lemma LexOfOpWords(s: string, op: string, n: nat, kind: string)
    requires LogicalOp(op, n, kind) && Words(s) == ["a", op, "b"]
    ensures Lex(s) == ["ID:a", kind, "ID:b"]
  {
    var ws := Words(s);
    OpWordsClassified(ws, op, n, kind);
    LexThree(s, ws, "ID:a", kind, "ID:b");
  }

  lemma OpLexed(s: string, op: string, n: nat, kind: string)
    requires LogicalOp(op, n, kind) && s == "a" + op + "b"
    ensures Lex(s) == ["ID:a", kind, "ID:b"]
  {
    OpWords(s, op, n, kind);
    LexOfOpWords(s, op, n, kind);
  }

  /** `&&` is a delimiter, so it comes out as a word of its own and then as
      AND between its two operands: that `switch` case is live. */
  lemma AndOperatorLexed()
    ensures Lex("a&&b") == ["ID:a", "AND", "ID:b"]
  {
    OpLexed("a&&b", "&&", 16, "AND");
  }

  /** Likewise `||` comes out as OR. */
  lemma OrOperatorLexed()
    ensures Lex("a||b") == ["ID:a", "OR", "ID:b"]
  {
    OpLexed("a||b", "||", 17, "OR");
  }
}
