/** `importantify` (packages/design/support.js): declarations cut at top-level semicolons, each marked
    `!important`. Every result holds for every text, unterminated or not. */
module CssDeclarations {
  import opened Text
  import opened CssLexemes
  import opened CssScanner

  // ---------------------------------------------------------------- cutting

  function NextDepth(depth: nat, word: bool, s: string): nat
    requires s != ""
  {
    if !KindOf(word, s).Plain? then depth
    else if s[0] == '(' then depth + 1
    else if s[0] == ')' && depth > 0 then depth - 1
    else depth
  }

  /** The text starts with a `;` outside strings, url tokens and parentheses. */
  predicate CutsHere(word: bool, depth: nat, s: string)
    requires s != ""
  {
    KindOf(word, s).Plain? && s[0] == ';' && depth == 0
  }

  function Glue(lexeme: string, ps: seq<string>): (r: seq<string>)
    requires ps != []
    ensures r != []
  {
    [lexeme + ps[0]] + ps[1..]
  }

  /** The text cut at its top-level semicolons. */
  function Pieces(word: bool, depth: nat, s: string): (ps: seq<string>)
    ensures ps != []
    decreases |s|
  {
    if s == "" then [""]
    else if CutsHere(word, depth, s) then [""] + Pieces(false, 0, s[1..])
    else
      var n := Len(word, s);
      Glue(s[..n], Pieces(NextWord(word, s), NextDepth(depth, word, s), s[n..]))
  }

  function Join(ps: seq<string>): string {
    if ps == [] then "" else if |ps| == 1 then ps[0] else ps[0] + (";" + Join(ps[1..]))
  }

  lemma JoinGlue(a: string, ps: seq<string>)
    requires ps != []
    ensures Join(Glue(a, ps)) == a + Join(ps)
  {
    if |ps| > 1 {
      Regroup(a, ps[0], ";" + Join(ps[1..]));
    }
  }

  lemma JoinCut(ps: seq<string>)
    requires ps != []
    ensures Join([""] + ps) == ";" + Join(ps)
  {
    assert ([""] + ps)[1..] == ps;
    assert "" + (";" + Join(ps)) == ";" + Join(ps);
  }

  lemma RejoinLexeme(word: bool, depth: nat, s: string, a: string, r: string)
    requires s == a + r && s != "" && |a| == Len(word, s) && !CutsHere(word, depth, s)
    requires Join(Pieces(NextWord(word, s), NextDepth(depth, word, s), r)) == r
    ensures Join(Pieces(word, depth, s)) == s
  {
    PiecesStep(word, depth, s, a, r);
    JoinGlue(a, Pieces(NextWord(word, s), NextDepth(depth, word, s), r));
  }

  lemma RejoinCut(word: bool, depth: nat, s: string, r: string)
    requires s == ";" + r && CutsHere(word, depth, s) && Join(Pieces(false, 0, r)) == r
    ensures Join(Pieces(word, depth, s)) == s
  {
    assert s[1..] == r;
    JoinCut(Pieces(false, 0, r));
  }

  /** Lossless: joined with `;`, the pieces are the text again. */
  lemma {:induction false} PiecesRejoin(word: bool, depth: nat, s: string)
    ensures Join(Pieces(word, depth, s)) == s
    decreases |s|
  {
    if s != "" {
      var n := Len(word, s);
      if CutsHere(word, depth, s) {
        PiecesRejoin(false, 0, s[1..]);
        RejoinCut(word, depth, s, s[1..]);
      } else {
        PiecesRejoin(NextWord(word, s), NextDepth(depth, word, s), s[n..]);
        RejoinLexeme(word, depth, s, s[..n], s[n..]);
      }
    }
  }

  // ---------------------------------------------------------------- what a piece is

  /** A text with no comment and no top-level `;`. When `closed`, it also ends outside every string, url
      token and parenthesis. */
  predicate Fits(word: bool, depth: nat, s: string, closed: bool)
    decreases |s|
  {
    if s == "" then closed ==> depth == 0
    else
      && !KindOf(word, s).Comment? && !CutsHere(word, depth, s) && (closed ==> Complete(word, s))
      && Fits(NextWord(word, s), NextDepth(depth, word, s), s[Len(word, s)..], closed)
  }

  lemma {:induction false} FitsWeaken(word: bool, depth: nat, s: string)
    requires Fits(word, depth, s, true)
    ensures Fits(word, depth, s, false)
    decreases |s|
  {
    if s != "" { FitsWeaken(NextWord(word, s), NextDepth(depth, word, s), s[Len(word, s)..]); }
  }

  /** A text that fits is cut nowhere. */
  lemma {:induction false} FitsAlone(word: bool, depth: nat, s: string)
    requires Fits(word, depth, s, false)
    ensures Pieces(word, depth, s) == [s] && NoComments(word, s)
    decreases |s|
  {
    if s != "" {
      var n := Len(word, s);
      FitsAlone(NextWord(word, s), NextDepth(depth, word, s), s[n..]);
      assert s == s[..n] + s[n..];
    }
  }

  lemma NextStable(word: bool, depth: nat, s: string, t: string)
    requires s != "" && Apart(t)
    ensures KindOf(word, s + t) == KindOf(word, s) && NextWord(word, s + t) == NextWord(word, s)
    ensures NextDepth(depth, word, s + t) == NextDepth(depth, word, s)
    ensures CutsHere(word, depth, s + t) == CutsHere(word, depth, s)
  {
    KindStable(word, s, t);
  }

  lemma PiecesStep(word: bool, depth: nat, s: string, a: string, r: string)
    requires s == a + r && s != "" && |a| == Len(word, s) && !CutsHere(word, depth, s)
    ensures Pieces(word, depth, s) == Glue(a, Pieces(NextWord(word, s), NextDepth(depth, word, s), r))
    ensures NoComments(word, s) <==> !KindOf(word, s).Comment? && NoComments(NextWord(word, s), r)
  {
    assert s[..|a|] == a && s[|a|..] == r;
  }

  lemma FirstLexeme(word: bool, s: string, t: string) returns (a: string, r: string)
    requires s != "" && Apart(t) && Complete(word, s)
    ensures s == a + r && s + t == a + (r + t) && |a| == Len(word, s) == Len(word, s + t) && r == s[Len(word, s)..]
    ensures Complete(word, s + t)
  {
    LexGrow(word, s, t);
    a, r := s[..Len(word, s)], s[Len(word, s)..];
  }

  /** What follows a closed text and a `;` is read from a fresh start. */
  lemma {:induction false} FitsThen(word: bool, depth: nat, s: string, rest: string)
    requires Fits(word, depth, s, true)
    ensures Pieces(word, depth, s + (";" + rest)) == [s] + Pieces(false, 0, rest)
    ensures NoComments(word, s + (";" + rest)) <==> NoComments(false, rest)
    decreases |s|
  {
    var t := ";" + rest;
    if s == "" {
      assert s + t == t;
      SemicolonCuts(word, rest);
    } else {
      NextStable(word, depth, s, t);
      var a, r := FirstLexeme(word, s, t);
      FitsThen(NextWord(word, s), NextDepth(depth, word, s), r, rest);
      PiecesStep(word, depth, s + t, a, r + t);
      GlueFirst(a, r, Pieces(false, 0, rest));
    }
  }

  lemma SemicolonCuts(word: bool, rest: string)
    ensures Pieces(word, 0, ";" + rest) == [""] + Pieces(false, 0, rest)
    ensures NoComments(word, ";" + rest) <==> NoComments(false, rest)
  {
    assert (";" + rest)[1..] == rest;
  }

  lemma GlueFirst(a: string, p: string, ps: seq<string>)
    ensures Glue(a, [p] + ps) == [a + p] + ps
  {
    assert ([p] + ps)[1..] == ps;
  }

  /** A list of texts that fit, all but the last closed. */
  predicate FitList(ps: seq<string>) {
    if ps == [] then true
    else if |ps| == 1 then Fits(false, 0, ps[0], false)
    else Fits(false, 0, ps[0], true) && FitList(ps[1..])
  }

  /** Cutting the join of such a list gives the list back. */
  lemma {:induction false} JoinThenCut(ps: seq<string>)
    requires FitList(ps) && ps != []
    ensures Pieces(false, 0, Join(ps)) == ps && NoComments(false, Join(ps))
  {
    if |ps| == 1 {
      FitsAlone(false, 0, ps[0]);
    } else {
      JoinThenCut(ps[1..]);
      FitsThen(false, 0, ps[0], Join(ps[1..]));
      assert ps == [ps[0]] + ps[1..];
    }
  }

  /** Cutting a comment-free text gives pieces that fit; `rest` is what follows the first one. */
  lemma {:induction false} PiecesFit(word: bool, depth: nat, s: string) returns (rest: string)
    requires NoComments(word, s)
    ensures s == Pieces(word, depth, s)[0] + rest
    ensures if |Pieces(word, depth, s)| == 1 then rest == "" else rest != "" && rest[0] == ';'
    ensures Fits(word, depth, Pieces(word, depth, s)[0], |Pieces(word, depth, s)| > 1)
    ensures FitList(Pieces(word, depth, s)[1..])
    decreases |s|
  {
    var ps := Pieces(word, depth, s);
    if s == "" {
      rest := "";
    } else if CutsHere(word, depth, s) {
      rest := s;
      var qs := Pieces(false, 0, s[1..]);
      assert ps[1..] == qs;
      var _ := PiecesFit(false, 0, s[1..]);
    } else {
      var n := Len(word, s);
      var w, d := NextWord(word, s), NextDepth(depth, word, s);
      rest := PiecesFit(w, d, s[n..]);
      assert s == s[..n] + s[n..];
      GlueFits(word, depth, s[..n], s[n..], Pieces(w, d, s[n..]), rest);
    }
  }

  lemma GlueFits(word: bool, depth: nat, a: string, r: string, qs: seq<string>, rest: string)
    requires qs != [] && r == qs[0] + rest && (rest == "" || rest[0] == ';')
    requires var s := a + r;
             && s != "" && Len(word, s) == |a| && !KindOf(word, s).Comment? && !CutsHere(word, depth, s)
             && Fits(NextWord(word, s), NextDepth(depth, word, s), qs[0], rest != "")
    ensures Glue(a, qs)[0] + rest == a + r && Glue(a, qs)[1..] == qs[1..]
    ensures Fits(word, depth, Glue(a, qs)[0], rest != "")
  {
    Regroup(a, qs[0], rest);
    if rest != "" && !Complete(word, a + r) { IncompleteIsAll(word, a + r); }
    FirstFits(word, depth, a, qs[0], rest);
  }

  lemma FirstFits(word: bool, depth: nat, a: string, q: string, rest: string)
    requires var s := a + q + rest;
             && s != "" && Len(word, s) == |a| && !KindOf(word, s).Comment? && !CutsHere(word, depth, s)
             && (rest == "" || (rest[0] == ';' && Complete(word, s)))
             && Fits(NextWord(word, s), NextDepth(depth, word, s), q, rest != "")
    ensures Fits(word, depth, a + q, rest != "")
  {
    var s := a + q + rest;
    assert Apart(rest);
    assert (a + q)[|a|..] == q;
    if rest == "" {
      assert s == a + q;
    } else {
      NextStable(word, depth, a + q, rest);
      LexShrink(word, a + q, rest);
    }
  }

  // ---------------------------------------------------------------- trimming and marking a piece

  lemma FitsSpace(depth: nat, s: string, closed: bool)
    requires s != "" && IsSpace(s[0]) && Fits(false, depth, s, closed)
    ensures Fits(false, depth, s[1..], closed)
  {
    assert KindOf(false, s).Plain? && Len(false, s) == 1 && !NextWord(false, s);
  }

  lemma {:induction false} FitsTrimStart(depth: nat, a: string, x: string, closed: bool)
    requires AllSpace(a) && Fits(false, depth, a + x, closed)
    ensures Fits(false, depth, x, closed)
  {
    if a == "" {
      assert a + x == x;
    } else {
      FitsSpace(depth, a + x, closed);
      assert (a + x)[1..] == a[1..] + x;
      FitsTrimStart(depth, a[1..], x, closed);
    }
  }

  lemma {:induction false} SpacesClose(word: bool, depth: nat, b: string)
    requires AllSpace(b) && Fits(word, depth, b, true)
    ensures depth == 0
  {
    if b != "" {
      assert KindOf(word, b).Plain?;
      SpacesClose(NextWord(word, b), depth, b[1..]);
    }
  }

  lemma LexemeEnd(word: bool, s: string)
    requires s != "" && Complete(word, s) && !KindOf(word, s).Plain?
    ensures !IsSpace(s[Len(word, s) - 1])
  {
    var n := Len(word, s);
    if KindOf(word, s).Quoted? {
      SpanLast(s[0], s[1..]);
      assert s[n - 1] == s[1..][n - 2];
    } else {
      SpanLast(')', s[4..]);
      assert s[n - 1] == s[4..][n - 5];
    }
  }

  /** A complete lexeme ends before the whitespace at the end of a text. */
  lemma LexemeWithin(word: bool, x: string, b: string)
    requires x != "" && !IsSpace(x[|x| - 1]) && AllSpace(b) && Complete(word, x + b)
    ensures Complete(word, x) && Len(word, x) == Len(word, x + b)
    ensures (x + b)[Len(word, x)..] == x[Len(word, x)..] + b
  {
    SpaceNoQuote(b);
    if Len(word, x + b) > 1 { LexemeEnd(word, x + b); }
    LexShrink(word, x, b);
    SliceAppends(x, b, Len(word, x));
  }

  lemma SliceAppends(x: string, b: string, n: nat)
    requires n <= |x|
    ensures (x + b)[n..] == x[n..] + b
  {}

  lemma {:induction false} FitsTrimEnd(word: bool, depth: nat, x: string, b: string, closed: bool)
    requires AllSpace(b) && (x == "" || !IsSpace(x[|x| - 1])) && Fits(word, depth, x + b, closed)
    ensures Fits(word, depth, x, closed)
    decreases |x|
  {
    SpaceNoQuote(b);
    if x == "" {
      assert x + b == b;
      if closed { SpacesClose(word, depth, b); }
    } else {
      NextStable(word, depth, x, b);
      if Complete(word, x + b) {
        LexemeWithin(word, x, b);
        FitsTrimEnd(NextWord(word, x), NextDepth(depth, word, x), x[Len(word, x)..], b, closed);
      } else {
        if Complete(word, x) { LexGrow(word, x, b); }
        IncompleteIsAll(word, x);
      }
    }
  }

  /** Trimming a piece keeps it a piece. */
  lemma FitsTrim(s: string, closed: bool)
    requires Fits(false, 0, s, closed)
    ensures Fits(false, 0, Trim(s), closed)
  {
    var a, b := TrimSplit(s);
    FitsTrimBoth(a, Trim(s), b, closed);
  }

  lemma FitsTrimBoth(a: string, t: string, b: string, closed: bool)
    requires AllSpace(a) && AllSpace(b) && Solid(t) && Fits(false, 0, a + t + b, closed)
    ensures Fits(false, 0, t, closed)
  {
    Regroup(a, t, b);
    FitsTrimStart(0, a, t + b, closed);
    FitsTrimEnd(false, 0, t, b, closed);
  }

  const IMPORTANT := " !important"

  predicate Inert(c: char) {
    !IsQuote(c) && c != '/' && Lower(c) != 'u' && c != '(' && c != ')' && c != ';'
  }

  lemma {:induction false} InertFits(word: bool, depth: nat, t: string, closed: bool)
    requires (forall i | 0 <= i < |t| :: Inert(t[i])) && (closed ==> depth == 0)
    ensures Fits(word, depth, t, closed)
    decreases |t|
  {
    if t != "" {
      assert KindOf(word, t).Plain?;
      InertFits(NextWord(word, t), depth, t[1..], closed);
    }
  }

  lemma ImportantIsInert()
    ensures Apart(IMPORTANT) && forall i | 0 <= i < |IMPORTANT| :: Inert(IMPORTANT[i])
  {
    assert IMPORTANT[1..][0] == '!';
  }

  lemma StillIncomplete(word: bool, x: string, t: string)
    requires x != "" && Apart(t) && !Complete(word, x) && !KindOf(word, x).Comment?
    requires forall i | 0 <= i < |t| :: Inert(t[i])
    ensures !Complete(word, x + t)
  {
    KindStable(word, x, t);
    if KindOf(word, x).Quoted? {
      assert (x + t)[1..] == x[1..] + t;
      StaysOpen(x[0], x[1..], t);
    } else {
      assert (x + t)[4..] == x[4..] + t;
      StaysOpen(')', x[4..], t);
    }
  }

  lemma {:induction false} FitsMark(word: bool, depth: nat, x: string, t: string, closed: bool)
    requires Fits(word, depth, x, closed) && Apart(t) && forall i | 0 <= i < |t| :: Inert(t[i])
    ensures Fits(word, depth, x + t, closed)
    decreases |x|
  {
    if x == "" {
      assert x + t == t;
      InertFits(word, depth, t, closed);
    } else {
      NextStable(word, depth, x, t);
      if Complete(word, x) {
        var a, r := FirstLexeme(word, x, t);
        FitsMark(NextWord(word, x), NextDepth(depth, word, x), r, t, closed);
        assert (x + t)[|a|..] == r + t;
      } else {
        StillIncomplete(word, x, t);
        IncompleteIsAll(word, x + t);
      }
    }
  }

  // ---------------------------------------------------------------- importantify

  /** /!\s*important$/i */
  predicate EndsImportant(s: string) {
    |s| >= 10
    && (var k := |s| - 9; IsImportantWord(s[k..]) && TrimEnd(s[..k]) != "" && TrimEnd(s[..k])[|TrimEnd(s[..k])| - 1] == '!')
  }

  predicate IsImportantWord(w: string) {
    |w| == 9 && Lower(w[0]) == 'i' && Lower(w[1]) == 'm' && Lower(w[2]) == 'p' && Lower(w[3]) == 'o' && Lower(w[4]) == 'r'
    && Lower(w[5]) == 't' && Lower(w[6]) == 'a' && Lower(w[7]) == 'n' && Lower(w[8]) == 't'
  }

  function Mark(decl: string): string {
    if EndsImportant(decl) then decl else decl + IMPORTANT
  }

  /** Trimmed, blanks dropped, the rest marked. */
  function Marked(ps: seq<string>): seq<string> {
    if ps == [] then []
    else (if Trim(ps[0]) == "" then [] else [Mark(Trim(ps[0]))]) + Marked(ps[1..])
  }

  function Importantified(css: string): string {
    Join(Marked(Pieces(false, 0, Strip(false, css))))
  }

  /** An exclamation mark, whitespace, and the word in any case: /!\s*important$/i, taken apart. */
  ghost predicate MarkedAs(d: string, a: string, space: string, w: string) {
    && d == a + "!" + space + w && AllSpace(space) && |w| == |"important"|
    && forall i | 0 <= i < |w| :: w[i] == "important"[i] || w[i] == "IMPORTANT"[i]
  }

  ghost predicate HasMark(d: string) {
    exists a, space, w :: MarkedAs(d, a, space, w)
  }

  lemma WordIff(w: string)
    requires |w| == 9
    ensures IsImportantWord(w) <==> forall i | 0 <= i < 9 :: w[i] == "important"[i] || w[i] == "IMPORTANT"[i]
  {
    var lower, upper := "important", "IMPORTANT";
    forall i | 0 <= i < 9 ensures Lower(w[i]) == lower[i] <==> w[i] == lower[i] || w[i] == upper[i] {
      CaseOf(w[i], lower[i], upper[i]);
    }
    assert IsImportantWord(w) <==> forall i | 0 <= i < 9 :: Lower(w[i]) == lower[i];
  }

  lemma CaseOf(c: char, lower: char, upper: char)
    requires 'a' <= lower <= 'z' && upper as int == lower as int - 32
    ensures Lower(c) == lower <==> c == lower || c == upper
  {}

  lemma MarkParts(d: string)
    requires EndsImportant(d)
    ensures HasMark(d)
  {
    var k := |d| - 9;
    WordIff(d[k..]);
    var space := TrimEndSplit(d[..k]);
    var head := TrimEnd(d[..k]);
    var a := head[..|head| - 1];
    assert d == a + "!" + space + d[k..];
    assert MarkedAs(d, a, space, d[k..]);
  }

  lemma PartsMark(d: string, a: string, space: string, w: string)
    requires MarkedAs(d, a, space, w)
    ensures EndsImportant(d)
  {
    var k := |d| - 9;
    assert d[k..] == w && d[..k] == a + "!" + space;
    WordIff(w);
    TrimEndStops(a + "!", space);
  }

  lemma {:induction false} TrimEndStops(s: string, space: string)
    requires s != "" && !IsSpace(s[|s| - 1]) && AllSpace(space)
    ensures TrimEnd(s + space) == s
  {
    if space == "" {
      assert s + space == s;
    } else {
      var u := s + space;
      assert u[..|u| - 1] == s + space[..|space| - 1];
      TrimEndStops(s, space[..|space| - 1]);
    }
  }

  /** A declaration is left alone exactly when it ends in the mark already; any other one gets it. */
  lemma MarkIff(d: string)
    ensures Mark(d) == d <==> HasMark(d)
    ensures Mark(d) == if HasMark(d) then d else d + " !important"
  {
    if EndsImportant(d) {
      MarkParts(d);
    } else if a, space, w :| MarkedAs(d, a, space, w) {
      PartsMark(d, a, space, w);
    }
  }

  /** The declarations among the pieces: trimmed, and blanks dropped. */
  function Declarations(ps: seq<string>): seq<string> {
    if ps == [] then [] else (if Trim(ps[0]) == "" then [] else [Trim(ps[0])]) + Declarations(ps[1..])
  }

  /** Marking adds to each declaration that does not end in the mark, and to no other. */
  lemma {:induction false} MarkedIs(ps: seq<string>)
    ensures |Marked(ps)| == |Declarations(ps)|
    ensures forall i | 0 <= i < |Marked(ps)| ::
              Marked(ps)[i] == if HasMark(Declarations(ps)[i]) then Declarations(ps)[i] else Declarations(ps)[i] + " !important"
  {
    if ps != [] {
      MarkedIs(ps[1..]);
      MarkIff(Trim(ps[0]));
      assert Trim(ps[0]) == "" ==> Marked(ps) == Marked(ps[1..]) && Declarations(ps) == Declarations(ps[1..]);
    }
  }

  lemma MarkFits(decl: string, closed: bool)
    requires Fits(false, 0, decl, closed)
    ensures Fits(false, 0, Mark(decl), closed)
  {
    ImportantIsInert();
    FitsMark(false, 0, decl, IMPORTANT, closed);
  }

  lemma {:induction false} TrimEndSolid(s: string)
    requires s != "" && !IsSpace(s[|s| - 1])
    ensures TrimEnd(s) == s
  {}

  lemma MarkEnds(decl: string)
    ensures EndsImportant(Mark(decl))
  {
    if !EndsImportant(decl) {
      var m := decl + IMPORTANT;
      var k := |m| - 9;
      assert m[k..] == "important";
      assert m[..k] == decl + " !";
      TrimEndSolid(m[..k]);
    }
  }

  lemma MarkSolid(decl: string)
    requires Solid(decl) && decl != ""
    ensures Trim(Mark(decl)) == Mark(decl) != ""
  {
    var m := Mark(decl);
    assert m[0] == decl[0];
    if !EndsImportant(decl) { assert m[|m| - 1] == IMPORTANT[10]; }
    TrimSolid(m);
  }

  /** Each output declaration is trimmed, not blank and marked: marking the list again changes nothing. */
  lemma {:induction false} MarkedTwice(ps: seq<string>)
    ensures Marked(Marked(ps)) == Marked(ps)
    ensures forall i | 0 <= i < |Marked(ps)| :: EndsImportant(Marked(ps)[i])
  {
    if ps != [] {
      MarkedTwice(ps[1..]);
      if Trim(ps[0]) != "" {
        var a, b := TrimSplit(ps[0]);
        var m := Mark(Trim(ps[0]));
        MarkSolid(Trim(ps[0]));
        MarkEnds(Trim(ps[0]));
        assert Marked(ps) == [m] + Marked(ps[1..]);
        assert Marked(ps)[1..] == Marked(ps[1..]);
      } else {
        assert Marked(ps) == Marked(ps[1..]);
      }
    }
  }

  lemma {:induction false} MarkedFits(ps: seq<string>)
    requires FitList(ps)
    ensures FitList(Marked(ps))
  {
    if ps != [] {
      FitsTrim(ps[0], |ps| > 1);
      MarkFits(Trim(ps[0]), |ps| > 1);
      if |ps| > 1 {
        MarkedFits(ps[1..]);
        ConsFits(Mark(Trim(ps[0])), Marked(ps[1..]));
        assert [] + Marked(ps[1..]) == Marked(ps[1..]);
      }
    }
  }

  lemma ConsFits(p: string, ps: seq<string>)
    requires Fits(false, 0, p, true) && FitList(ps)
    ensures FitList([p] + ps)
  {
    assert ([p] + ps)[1..] == ps;
    if ps == [] { FitsWeaken(false, 0, p); }
  }

  lemma CutFits(css: string)
    requires NoComments(false, css)
    ensures FitList(Pieces(false, 0, css))
  {
    var _ := PiecesFit(false, 0, css);
  }

  /** No declaration is lost, reordered or split: read back, the output is cut into exactly the declarations
      of the comment-stripped text, in order, each as it was if it ended in the mark, and otherwise with it added. */
  lemma OutputReadsBack(css: string)
    ensures var ds, out := Declarations(Pieces(false, 0, Strip(false, css))), Pieces(false, 0, Importantified(css));
            if ds == [] then Importantified(css) == ""
            else |out| == |ds| && forall i | 0 <= i < |out| :: out[i] == if HasMark(ds[i]) then ds[i] else ds[i] + " !important"
    ensures NoComments(false, Importantified(css))
  {
    MarkedIs(Pieces(false, 0, Strip(false, css)));
    if Declarations(Pieces(false, 0, Strip(false, css))) != [] { OutputIsMarked(css); }
  }

  lemma OutputIsMarked(css: string)
    requires Declarations(Pieces(false, 0, Strip(false, css))) != []
    ensures Pieces(false, 0, Importantified(css)) == Marked(Pieces(false, 0, Strip(false, css)))
    ensures NoComments(false, Importantified(css))
  {
    StrippedHasNoComments(false, css);
    var ps := Pieces(false, 0, Strip(false, css));
    CutFits(Strip(false, css));
    MarkedFits(ps);
    MarkedIs(ps);
    JoinThenCut(Marked(ps));
  }

  /** `importantify` changes nothing the second time, on every text. */
  lemma ImportantifyIsIdempotent(css: string)
    ensures Importantified(Importantified(css)) == Importantified(css)
  {
    var ps := Pieces(false, 0, Strip(false, css));
    if Marked(ps) == [] {
      BlankMarks();
    } else {
      MarkedIs(ps);
      OutputIsMarked(css);
      NothingToStrip(false, Importantified(css));
      MarkedTwice(ps);
    }
  }

  lemma BlankMarks()
    ensures Importantified("") == ""
  {
    assert Pieces(false, 0, "") == [""];
    assert Marked([""]) == [] + Marked([""][1..]);
  }

  // ---------------------------------------------------------------- the loop

  /** Where the string (or nothing) the loop is inside of ends. */
  function Resume(css: string, i: nat, quote: string): (e: nat)
    requires i <= |css|
    ensures i <= e <= |css|
  {
    if quote == "" then i else i + Span(quote[0], css[i..])
  }

  /** The pieces still to come, the one in progress included. */
  function InProgress(css: string, start: nat, i: nat, depth: nat, quote: string): seq<string>
    requires start <= i <= |css|
  {
    var e := Resume(css, i, quote);
    Glue(css[start..e], Pieces(WordBefore(css, e), depth, css[e..]))
  }

  predicate CleanFrom(css: string, i: nat, quote: string)
    requires i <= |css|
  {
    var e := Resume(css, i, quote);
    NoComments(WordBefore(css, e), css[e..])
  }

  lemma GlueGlue(a: string, b: string, ps: seq<string>)
    requires ps != []
    ensures Glue(a, Glue(b, ps)) == Glue(a + b, ps)
  {
    Regroup(a, b, ps[0]);
  }

  /** A complete or final lexeme ends where the loop's word flag is the one the lexemes pass on. */
  lemma WordAfterAny(css: string, i: nat, next: nat)
    requires i < |css| && next == i + Len(WordBefore(css, i), css[i..]) < |css|
    ensures WordBefore(css, next) == NextWord(WordBefore(css, i), css[i..])
  {
    if IsQuote(css[i]) {
      var s, w := css[i..], WordBefore(css, i);
      if !Complete(w, s) { IncompleteIsAll(w, s); }
      SpanLast(s[0], s[1..]);
      assert css[next - 1] == s[1..][next - i - 2];
    } else {
      WordAfter(css, i, next);
    }
  }

  lemma WordIrrelevant(w1: bool, w2: bool, depth: nat)
    ensures Pieces(w1, depth, "") == Pieces(w2, depth, "") && NoComments(w1, "") == NoComments(w2, "")
  {}

  lemma LexemeFlags(css: string, i: nat, depth: nat, next: nat)
    requires i < |css| && next == i + Len(WordBefore(css, i), css[i..])
    ensures var w, w' := NextWord(WordBefore(css, i), css[i..]), WordBefore(css, next);
            Pieces(w, depth, css[next..]) == Pieces(w', depth, css[next..])
            && NoComments(w, css[next..]) == NoComments(w', css[next..])
  {
    if next < |css| { WordAfterAny(css, i, next); }
    else { WordIrrelevant(WordBefore(css, next), NextWord(WordBefore(css, i), css[i..]), depth); }
  }

  lemma Slices(css: string, start: nat, i: nat, next: nat)
    requires start <= i <= next <= |css|
    ensures css[i..] == css[i..next] + css[next..] && css[start..next] == css[start..i] + css[i..next]
  {}

  /** Moving past one lexeme that is not a cut. */
  lemma AdvanceLexeme(css: string, start: nat, i: nat, depth: nat, next: nat)
    requires start <= i < |css| && next == i + Len(WordBefore(css, i), css[i..])
    requires CleanFrom(css, i, "") && !CutsHere(WordBefore(css, i), depth, css[i..])
    ensures CleanFrom(css, next, "")
    ensures InProgress(css, start, i, depth, "")
            == InProgress(css, start, next, NextDepth(depth, WordBefore(css, i), css[i..]), "")
  {
    var s, w := css[i..], WordBefore(css, i);
    var d := NextDepth(depth, w, s);
    Slices(css, start, i, next);
    PiecesStep(w, depth, s, css[i..next], css[next..]);
    LexemeFlags(css, i, d, next);
    GlueGlue(css[start..i], css[i..next], Pieces(WordBefore(css, next), d, css[next..]));
  }

  lemma CutStep(word: bool, s: string, rest: string)
    requires s != "" && s[0] == ';' && s[1..] == rest && NoComments(word, s)
    ensures Pieces(word, 0, s) == [""] + Pieces(false, 0, rest) && NoComments(false, rest)
  {
    assert KindOf(word, s).Plain?;
  }

  lemma GlueNothing(a: string, ps: seq<string>)
    requires ps != []
    ensures Glue(a, [""] + ps) == [a] + Glue("", ps)
  {
    GlueFirst(a, "", ps);
    assert a + "" == a && "" + ps[0] == ps[0];
    assert Glue("", ps) == ps;
  }

  /** The cut: the piece in progress is done and the next one starts after the `;`. */
  lemma AdvanceCut(css: string, start: nat, i: nat)
    requires start <= i < |css| && css[i] == ';' && CleanFrom(css, i, "")
    ensures CleanFrom(css, i + 1, "")
    ensures InProgress(css, start, i, 0, "") == [css[start..i]] + InProgress(css, i + 1, i + 1, 0, "")
  {
    CutStep(WordBefore(css, i), css[i..], css[i + 1..]);
    assert !WordBefore(css, i + 1) && css[i + 1..i + 1] == "";
    GlueNothing(css[start..i], Pieces(false, 0, css[i + 1..]));
  }

  /** Entering a string: the loop will resume where the string's lexeme ends. */
  lemma AdvanceOpens(css: string, start: nat, i: nat, depth: nat)
    requires start <= i < |css| && IsQuote(css[i]) && CleanFrom(css, i, "")
    ensures CleanFrom(css, i + 1, [css[i]])
    ensures InProgress(css, start, i, depth, "") == InProgress(css, start, i + 1, depth, [css[i]])
  {
    QuotedLen(css, i);
    var e := Resume(css, i + 1, [css[i]]);
    AdvanceLexeme(css, start, i, depth, e);
    assert Resume(css, e, "") == e;
  }

  lemma QuotedLen(css: string, i: nat)
    requires i < |css| && IsQuote(css[i])
    ensures KindOf(WordBefore(css, i), css[i..]).Quoted?
    ensures i + Len(WordBefore(css, i), css[i..]) == Resume(css, i + 1, [css[i]])
  {
    assert css[i..][1..] == css[i + 1..];
  }

  lemma AtTheEnd(css: string, start: nat, depth: nat, quote: string)
    requires start <= |css|
    ensures InProgress(css, start, |css|, depth, quote) == [css[start..]]
  {
    assert css[|css|..] == "" && css[start..|css|] + "" == css[start..];
  }

  lemma AtTheStart(css: string)
    ensures InProgress(css, 0, 0, 0, "") == Pieces(false, 0, css)
  {
    assert css[0..] == css && css[0..0] == "";
    var ps := Pieces(false, 0, css);
    assert "" + ps[0] == ps[0];
    assert Glue("", ps) == ps;
  }

  /** Within a string the end does not move; at the closing quote it has been reached. */
  lemma AdvanceInString(css: string, i: nat, quote: string, next: nat)
    requires i < |css| && |quote| == 1 && IsQuote(quote[0])
    requires css[i] != quote[0] ==> next == if css[i] == '\\' && i + 1 < |css| then i + 2 else i + 1
    requires css[i] == quote[0] ==> next == i + 1
    ensures next <= |css| && Resume(css, next, if css[i] == quote[0] then "" else quote) == Resume(css, i, quote)
  {
    SpanStep(quote[0], css, i);
  }

  lemma RegroupList(a: seq<string>, b: seq<string>, c: seq<string>)
    ensures a + (b + c) == (a + b) + c
  {}

  /** What the loop knows: the pieces done, then the one in progress and the ones to come. */
  ghost predicate CutSoFar(css: string, decls: seq<string>, start: nat, i: nat, depth: nat, quote: string) {
    && start <= i <= |css| && (quote == "" || (|quote| == 1 && IsQuote(quote[0])))
    && CleanFrom(css, i, quote)
    && Pieces(false, 0, css) == decls + InProgress(css, start, i, depth, quote)
  }

  lemma CutsInString(css: string, decls: seq<string>, start: nat, i: nat, depth: nat, quote: string, next: nat)
    requires CutSoFar(css, decls, start, i, depth, quote) && i < |css| && quote != ""
    requires next == if css[i] == '\\' && i + 1 < |css| then i + 2 else i + 1
    ensures CutSoFar(css, decls, start, next, depth, if [css[i]] == quote then "" else quote)
  {
    AdvanceInString(css, i, quote, next);
  }

  lemma CutsAtSemicolon(css: string, decls: seq<string>, start: nat, i: nat)
    requires CutSoFar(css, decls, start, i, 0, "") && i < |css| && css[i] == ';'
    ensures CutSoFar(css, decls + [css[start..i]], i + 1, i + 1, 0, "")
  {
    AdvanceCut(css, start, i);
    RegroupList(decls, [css[start..i]], InProgress(css, i + 1, i + 1, 0, ""));
  }

  method CutDeclarations(css: string) returns (decls: seq<string>)
    requires NoComments(false, css)
    ensures decls == Pieces(false, 0, css)
  {
    decls := [];
    var start, depth, quote, i := 0, 0, "", 0;
    AtTheStart(css);
    assert css[0..] == css;
    while i < |css|
      invariant CutSoFar(css, decls, start, i, depth, quote)
      decreases |css| - i
    {
      var c := css[i];
      if quote != "" {
        var next := if c == '\\' && i + 1 < |css| then i + 2 else i + 1;
        CutsInString(css, decls, start, i, depth, quote, next);
        i, quote := next, if [c] == quote then "" else quote;
      } else if c == '\'' || c == '"' {
        AdvanceOpens(css, start, i, depth);
        i, quote := i + 1, [c];
      } else if c == ';' && depth == 0 {
        CutsAtSemicolon(css, decls, start, i);
        decls, start, i := decls + [css[start..i]], i + 1, i + 1;
      } else {
        i, depth := CutNothing(css, start, i, depth);
      }
    }
    AtTheEnd(css, start, depth, quote);
    decls := decls + [css[start..]];
  }

  /** The loop body outside strings, at a character that neither opens one nor cuts. */
  method CutNothing(css: string, start: nat, i: nat, depth: nat) returns (next: nat, depth': nat)
    requires start <= i < |css| && !IsQuote(css[i]) && !(css[i] == ';' && depth == 0) && CleanFrom(css, i, "")
    ensures i < next <= |css| && CleanFrom(css, next, "")
    ensures InProgress(css, start, i, depth, "") == InProgress(css, start, next, depth', "")
  {
    next, depth' := i + 1, depth;
    if css[i] == '(' {
      depth' := depth + 1;
    } else if css[i] == ')' {
      depth' := if depth > 0 then depth - 1 else 0;
    } else {
      var end := ScanUnquotedUrl(css, i);
      if end != -1 { next := end; }
    }
    AdvanceLexeme(css, start, i, depth, next);
  }

  lemma MarkedStep(ps: seq<string>, k: nat, done: seq<string>)
    requires k < |ps|
    ensures done + Marked(ps[k..])
            == (if Trim(ps[k]) == "" then done else done + [Mark(Trim(ps[k]))]) + Marked(ps[k + 1..])
  {
    assert ps[k..][1..] == ps[k + 1..];
  }

  method Importantify(css: string) returns (r: string)
    ensures r == Importantified(css)
  {
    var clean := StripComments(css);
    StrippedHasNoComments(false, css);
    var decls := CutDeclarations(clean);
    var marked := [];
    var k := 0;
    assert decls[0..] == decls;
    while k < |decls|
      invariant k <= |decls| && Marked(decls) == marked + Marked(decls[k..])
    {
      MarkedStep(decls, k, marked);
      var d := Trim(decls[k]);
      if d != "" { marked := marked + [Mark(d)]; }
      k := k + 1;
    }
    assert marked + Marked([]) == marked;
    r := Join(marked);
  }
}
