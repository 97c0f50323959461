/** The few java.lang.String operations the lexer relies on, written out
    with their Java semantics: literal replace, trim, replaceAll("\\s+", " ")
    and split(" "). */
module JavaString {

  predicate StartsWith(s: string, prefix: string) {
    |prefix| <= |s| && s[..|prefix|] == prefix
  }

  /** Java's `\s`: space, tab, newline, vertical tab, form feed, carriage return. */
  predicate IsWs(c: char) {
    c == ' ' || c == '\t' || c == '\n' || c == '\r' || c as int == 0x0B || c as int == 0x0C
  }

  /** String.replace(pat, rep): left-to-right, non-overlapping literal replacement. */
  function Replace(s: string, pat: string, rep: string): (r: string)
    requires |pat| > 0
    ensures |rep| >= |pat| ==> |r| >= |s|
    decreases |s|
  {
    if |s| < |pat| then s
    else if s[..|pat|] == pat then rep + Replace(s[|pat|..], pat, rep)
    else [s[0]] + Replace(s[1..], pat, rep)
  }

  /** A string in which the first character of `pat` never occurs is left unchanged. */
  lemma {:induction false} ReplaceAbsent(s: string, pat: string, rep: string)
    requires |pat| > 0
    requires forall k :: 0 <= k < |s| ==> s[k] != pat[0]
    ensures Replace(s, pat, rep) == s
    decreases |s|
  {
    if |s| >= |pat| {
      assert s[..|pat|][0] == s[0] != pat[0];
      ReplaceAbsent(s[1..], pat, rep);
    }
  }

  /** The leading part of String.trim(): drops characters <= U+0020. */
  function TrimStart(s: string): (r: string)
    ensures |r| <= |s| && r == s[|s| - |r|..]
    ensures forall k :: 0 <= k < |s| - |r| ==> s[k] <= ' '
    ensures |r| > 0 ==> r[0] > ' '
    decreases |s|
  {
    if |s| > 0 && s[0] <= ' ' then TrimStart(s[1..]) else s
  }

  /** The trailing part of String.trim(). */
  function TrimEnd(s: string): (r: string)
    ensures |r| <= |s| && r == s[..|r|]
    ensures forall k :: |r| <= k < |s| ==> s[k] <= ' '
    ensures |r| > 0 ==> r[|r| - 1] > ' '
    decreases |s|
  {
    if |s| > 0 && s[|s| - 1] <= ' ' then TrimEnd(s[..|s| - 1]) else s
  }

  /** String.trim(): no character <= U+0020 is left at either end, nothing
      is removed when there is none at either end, and nothing but such
      characters is removed. */
  function Trim(s: string): (r: string)
    ensures |r| <= |s|
    ensures |r| > 0 ==> r[0] > ' ' && r[|r| - 1] > ' '
    ensures |s| == 0 || (s[0] > ' ' && s[|s| - 1] > ' ') ==> r == s
    ensures |r| == 0 ==> forall k :: 0 <= k < |s| ==> s[k] <= ' '
  {
    TrimEnd(TrimStart(s))
  }

  /** What a character becomes under replaceAll("\\s+", " "), ignoring run merging. */
  function Norm(c: char): char {
    if IsWs(c) then ' ' else c
  }

  /** Drops the leading run of `\s` characters. */
  function SkipWs(s: string): (r: string)
    ensures |r| <= |s| && r == s[|s| - |r|..]
    ensures forall k :: 0 <= k < |s| - |r| ==> IsWs(s[k])
    ensures |r| > 0 ==> !IsWs(r[0])
    decreases |s|
  {
    if |s| > 0 && IsWs(s[0]) then SkipWs(s[1..]) else s
  }

  /** replaceAll("\\s+", " "): every maximal run of `\s` becomes one space. */
  function CollapseWs(s: string): (r: string)
    ensures |r| == 0 <==> |s| == 0
    ensures |s| > 0 ==> r[0] == Norm(s[0]) && r[|r| - 1] == Norm(s[|s| - 1])
    ensures forall k :: 0 <= k < |r| && IsWs(r[k]) ==> r[k] == ' '
    ensures NoDoubleSpace(r)
    ensures NonWs(r) == NonWs(s)
    decreases |s|
  {
    if |s| == 0 then []
    else if IsWs(s[0]) then
      var rest := SkipWs(s[1..]);
      assert |rest| > 0 ==> rest[|rest| - 1] == s[|s| - 1];
      var x := CollapseWs(rest);
      NonWsSkip(s[1..]);
      assert (" " + x)[1..] == x;
      assert |x| > 0 ==> x[0] != ' ';
      " " + x
    else
      var x := CollapseWs(s[1..]);
      assert ([s[0]] + x)[1..] == x;
      assert s[0] != ' ';
      [s[0]] + x
  }

  /** No two adjacent spaces. */
  predicate NoDoubleSpace(r: string)
    decreases |r|
  {
    |r| < 2 || (!(r[0] == ' ' && r[1] == ' ') && NoDoubleSpace(r[1..]))
  }

  /** The characters of `s` that are not `\s`, in order. */
  function NonWs(s: string): string
    decreases |s|
  {
    if |s| == 0 then "" else if IsWs(s[0]) then NonWs(s[1..]) else [s[0]] + NonWs(s[1..])
  }

  /** Dropping a leading `\s` run keeps the non-`\s` characters. */
  lemma {:induction false} NonWsSkip(s: string)
    ensures NonWs(SkipWs(s)) == NonWs(s)
    decreases |s|
  {
    if |s| > 0 && IsWs(s[0]) {
      NonWsSkip(s[1..]);
    }
  }

  /** Every character turned into a space when it is `\s`, one by one. */
  function NormAll(s: string): (r: string)
    ensures |r| == |s|
    decreases |s|
  {
    if |s| == 0 then "" else [Norm(s[0])] + NormAll(s[1..])
  }

  /** Removes the first space of every pair of adjacent spaces. */
  function Squeeze(t: string): string
    decreases |t|
  {
    if |t| < 2 then t
    else if t[0] == ' ' && t[1] == ' ' then Squeeze(t[1..])
    else [t[0]] + Squeeze(t[1..])
  }

  /** A space followed by a normalised text squeezes like a space followed
      by that text without its leading `\s` run. */
  lemma {:induction false} SqueezeAfterSpace(t: string)
    ensures Squeeze(" " + NormAll(t)) == " " + Squeeze(NormAll(SkipWs(t)))
    decreases |t|
  {
    if |t| > 0 {
      var n := NormAll(t);
      assert n == [Norm(t[0])] + NormAll(t[1..]);
      if IsWs(t[0]) {
        assert (" " + n)[1..] == " " + NormAll(t[1..]);
        SqueezeAfterSpace(t[1..]);
      } else {
        assert (" " + n)[1..] == n;
      }
    }
  }

  /** The run-by-run collapse equals the pairwise reference: normalise each
      character, then squeeze adjacent spaces. */
  lemma {:induction false} CollapseIsSqueeze(s: string)
    ensures CollapseWs(s) == Squeeze(NormAll(s))
    decreases |s|
  {
    if |s| > 0 {
      var n := NormAll(s);
      assert n == [Norm(s[0])] + NormAll(s[1..]);
      if IsWs(s[0]) {
        CollapseIsSqueeze(SkipWs(s[1..]));
        SqueezeAfterSpace(s[1..]);
      } else {
        CollapseIsSqueeze(s[1..]);
        if |s| > 1 {
          assert n[1..] == NormAll(s[1..]);
        }
      }
    }
  }

  /** The pieces joined back with single spaces. */
  function JoinSpaces(ps: seq<string>): string {
    if |ps| == 0 then "" else ps[0] + JoinTail(ps[1..])
  }

  /** Each piece preceded by one space. */
  function JoinTail(ps: seq<string>): string
    decreases |ps|
  {
    if |ps| == 0 then "" else " " + ps[0] + JoinTail(ps[1..])
  }

  /** All pieces of `s` between single spaces, empty pieces included. */
  function Pieces(s: string): (r: seq<string>)
    ensures |r| >= 1
    ensures |r[0]| <= |s| && r[0] == s[..|r[0]|]
    ensures forall k :: 0 <= k < |r| ==> ' ' !in r[k]
    ensures JoinSpaces(r) == s
    decreases |s|
  {
    if |s| == 0 then [""]
    else if s[0] == ' ' then
      var p := Pieces(s[1..]);
      JoinEmptyCons(p);
      assert s == " " + s[1..];
      [""] + p
    else
      var p := Pieces(s[1..]);
      assert [s[0]] + p[0] == s[..|p[0]| + 1];
      JoinHeadCons(s[0], p);
      assert s == [s[0]] + s[1..];
      [[s[0]] + p[0]] + p[1..]
  }

  /** An empty first piece stands for a leading space. */
  lemma JoinEmptyCons(p: seq<string>)
    requires |p| > 0
    ensures JoinSpaces([""] + p) == " " + JoinSpaces(p)
  {
    assert ([""] + p)[1..] == p;
  }

  /** A character in front of the first piece is in front of the text. */
  lemma JoinHeadCons(c: char, p: seq<string>)
    requires |p| > 0
    ensures JoinSpaces([[c] + p[0]] + p[1..]) == [c] + JoinSpaces(p)
  {
    var r := [[c] + p[0]] + p[1..];
    assert r[1..] == p[1..];
  }

  /** `t` followed by nothing but spaces makes up `s`. */
  predicate SpacePadded(s: string, t: string) {
    |t| <= |s| && s[..|t|] == t && forall k :: |t| <= k < |s| ==> s[k] == ' '
  }

  /** Joining after appending one more piece adds a space and that piece. */
  lemma {:induction false} JoinTailSnoc(ps: seq<string>, x: string)
    ensures JoinTail(ps + [x]) == JoinTail(ps) + " " + x
    decreases |ps|
  {
    if |ps| > 0 {
      assert (ps + [x])[1..] == ps[1..] + [x];
      JoinTailSnoc(ps[1..], x);
    }
  }

  function DropTrailingEmpty(ps: seq<string>): (r: seq<string>)
    ensures |r| <= |ps| && r == ps[..|r|]
    ensures |r| > 0 ==> r[|r| - 1] != ""
    ensures forall k :: |r| <= k < |ps| ==> ps[k] == ""
    decreases |ps|
  {
    if |ps| > 0 && ps[|ps| - 1] == "" then DropTrailingEmpty(ps[..|ps| - 1]) else ps
  }

  /** The dropped empty pieces only ever stood for trailing spaces. */
  lemma {:induction false} DropTrailingJoin(ps: seq<string>)
    ensures SpacePadded(JoinSpaces(ps), JoinSpaces(DropTrailingEmpty(ps)))
    decreases |ps|
  {
    if |ps| > 0 && ps[|ps| - 1] == "" {
      var q := ps[..|ps| - 1];
      DropTrailingJoin(q);
      assert DropTrailingEmpty(ps) == DropTrailingEmpty(q);
      if |q| > 0 {
        assert ps == q + [""];
        JoinSnocEmpty(q);
        SpacePaddedSnoc(JoinSpaces(q), JoinSpaces(DropTrailingEmpty(q)));
      }
    }
  }

  /** An empty last piece stands for one trailing space. */
  lemma JoinSnocEmpty(q: seq<string>)
    requires |q| > 0
    ensures JoinSpaces(q + [""]) == JoinSpaces(q) + " "
  {
    JoinTailSnoc(q[1..], "");
    assert (q + [""])[1..] == q[1..] + [""];
  }

  /** One more trailing space keeps a text space-padded. */
  lemma SpacePaddedSnoc(s: string, t: string)
    requires SpacePadded(s, t)
    ensures SpacePadded(s + " ", t)
  {
    assert (s + " ")[..|t|] == s[..|t|];
  }

  /** String.split(" "): the whole string when it holds no space, otherwise
      the pieces with trailing empty pieces removed. Rejoined with single
      spaces, the result is `s` up to the trailing spaces. */
  function Split(s: string): (r: seq<string>)
    ensures ' ' !in s ==> r == [s]
    ensures forall k :: 0 <= k < |r| ==> ' ' !in r[k]
    ensures ' ' in s ==> SpacePadded(s, JoinSpaces(r)) && (|r| == 0 || r[|r| - 1] != "")
  {
    if ' ' !in s then [s]
    else
      var ps := Pieces(s);
      DropTrailingJoin(ps);
      DropTrailingEmpty(ps)
  }

  // ---------------------------------------------------------------------
  // Concrete shapes
  // ---------------------------------------------------------------------

  /** A text without whitespace is left as it is by the collapse. */
  lemma {:induction false} CollapseNoWs(s: string)
    requires forall j :: 0 <= j < |s| ==> !IsWs(s[j])
    ensures CollapseWs(s) == s
    decreases |s|
  {
    if |s| > 0 {
      CollapseNoWs(s[1..]);
    }
  }

  /** A text whose whitespace is already single spaces is a fixed point of
      the collapse. */
  lemma CollapseIdentity(s: string)
    requires forall j :: 0 <= j < |s| && IsWs(s[j]) ==> s[j] == ' '
    requires NoDoubleSpace(s)
    ensures CollapseWs(s) == s
  {
    CollapseIsSqueeze(s);
    NormAllFixed(s);
    SqueezeFixed(s);
  }

  lemma {:induction false} NormAllFixed(s: string)
    requires forall j :: 0 <= j < |s| && IsWs(s[j]) ==> s[j] == ' '
    ensures NormAll(s) == s
    decreases |s|
  {
    if |s| > 0 {
      var t := s[1..];
      forall j | 0 <= j < |t| && IsWs(t[j]) ensures t[j] == ' ' { assert t[j] == s[j + 1]; }
      NormAllFixed(t);
      assert [s[0]] + t == s;
    }
  }

  lemma {:induction false} SqueezeFixed(t: string)
    requires NoDoubleSpace(t)
    ensures Squeeze(t) == t
    decreases |t|
  {
    if |t| >= 2 {
      SqueezeFixed(t[1..]);
      assert [t[0]] + t[1..] == t;
    }
  }

  /** A text without a space is one piece. */
  lemma {:induction false} PiecesNoSpace(w: string)
    requires ' ' !in w
    ensures Pieces(w) == [w]
    decreases |w|
  {
    if |w| > 0 {
      PiecesNoSpace(w[1..]);
      assert [w[0]] + w[1..] == w;
    }
  }

  /** A space-free word followed by a space is the first piece. */
  lemma {:induction false} PiecesWordSpace(w: string, x: string)
    requires ' ' !in w
    ensures Pieces(w + " " + x) == [w] + Pieces(x)
    decreases |w|
  {
    var s := w + " " + x;
    if |w| == 0 {
      assert s[1..] == x;
    } else {
      assert s[1..] == w[1..] + " " + x;
      PiecesWordSpace(w[1..], x);
      assert [w[0]] + w[1..] == w;
    }
  }

  /** Three space-free words joined by single spaces split back into them. */
  lemma SplitThreeWords(a: string, m: string, b: string)
    requires ' ' !in a && ' ' !in m && ' ' !in b && b != ""
    ensures Split(a + " " + m + " " + b) == [a, m, b]
  {
    var s := a + " " + m + " " + b;
    PiecesThreeWords(a, m, b);
    assert s[|a|] == ' ';
    SplitKeepsLastPiece(s);
  }

  lemma PiecesThreeWords(a: string, m: string, b: string)
    requires ' ' !in a && ' ' !in m && ' ' !in b
    ensures Pieces(a + " " + m + " " + b) == [a, m, b]
  {
    var x := m + " " + b;
    PiecesTwoWords(m, b);
    assert a + " " + m + " " + b == a + " " + x;
    PiecesWordSpace(a, x);
  }

  lemma PiecesTwoWords(m: string, b: string)
    requires ' ' !in m && ' ' !in b
    ensures Pieces(m + " " + b) == [m, b]
  {
    PiecesNoSpace(b);
    PiecesWordSpace(m, b);
  }

  /** Nothing is dropped when the last piece is not empty. */
  lemma SplitKeepsLastPiece(s: string)
    requires ' ' in s
    requires |Pieces(s)| > 0 && Pieces(s)[|Pieces(s)| - 1] != ""
    ensures Split(s) == Pieces(s)
  {
  }
}
