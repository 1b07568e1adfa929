/** Style text as its author means it: trees of strings, url tokens, comments and groups in parentheses, and what the
    character loops make of the text of such a tree. */
module CssTrees {
  import opened Text
  import opened CssLexemes
  import opened CssScanner
  import opened CssDeclarations

  /** A character of a string or url token, by itself or behind a backslash. */
  datatype Piece = Bare(c: char) | Escaped(c: char)

  datatype Unit =
    | One(c: char)
    | Str(quote: char, body: seq<Piece>)
    | Token(name: string, body: seq<Piece>)
    | Note(text: string)
    | Group(inner: Units)

  datatype Units = Nil | Cons(head: Unit, tail: Units)

  function PrintBody(body: seq<Piece>): string {
    if body == [] then ""
    else (match body[0] case Bare(c) => [c] case Escaped(c) => ['\\', c]) + PrintBody(body[1..])
  }

  function PrintUnit(u: Unit): string {
    match u
    case One(c) => [c]
    case Str(quote, body) => [quote] + (PrintBody(body) + [quote])
    case Token(name, body) => name + "(" + (PrintBody(body) + ")")
    case Note(text) => "/*" + (text + "*/")
    case Group(inner) => "(" + (Print(inner) + ")")
  }

  function Print(us: Units): string {
    match us
    case Nil => ""
    case Cons(u, tail) => PrintUnit(u) + Print(tail)
  }

  /** The tree with a space for every comment. */
  function Uncommented(us: Units): Units {
    match us
    case Nil => Nil
    case Cons(u, tail) =>
      var v := match u case Note(_) => One(' ') case Group(inner) => Group(Uncommented(inner)) case _ => u;
      Cons(v, Uncommented(tail))
  }

  // ---------------------------------------------------------------- trees whose text can be read

  predicate Ends(end: char, body: seq<Piece>) {
    forall i :: 0 <= i < |body| && body[i].Bare? ==> body[i].c != end && body[i].c != '\\'
  }

  /** A quote comes first, whitespace aside. */
  ghost predicate Quoting(s: string) {
    exists k :: 0 <= k < |s| && AllSpace(s[..k]) && (s[k] == '"' || s[k] == '\'')
  }

  predicate SpellsUrl(s: string) {
    |s| >= 3 && (s[0] == 'u' || s[0] == 'U') && (s[1] == 'r' || s[1] == 'R') && (s[2] == 'l' || s[2] == 'L')
  }

  predicate InWord(u: Unit) {
    u.One? && ('a' <= u.c <= 'z' || 'A' <= u.c <= 'Z' || '0' <= u.c <= '9' || u.c == '_' || u.c == '-')
  }

  /** The unit is what the text starts with when `after` follows it; `word` says that a word character stands before it. */
  ghost predicate Stands(word: bool, u: Unit, after: string)
    decreases u
  {
    match u
    case One(c) =>
      && c != '"' && c != '\'' && c != '(' && c != ')'
      && !(c == '/' && after != "" && after[0] == '*')
      && (!word && SpellsUrl([c] + after) && |after| > 2 && after[2] == '(' ==> Quoting(after[3..]))
    case Str(quote, body) => (quote == '"' || quote == '\'') && Ends(quote, body)
    case Token(name, body) => !word && |name| == 3 && SpellsUrl(name) && Ends(')', body) && !Quoting(PrintBody(body) + ")")
    case Note(text) => forall i :: 0 <= i < |text| - 1 ==> !(text[i] == '*' && text[i + 1] == '/')
    case Group(inner) => Stand(false, inner, ")" + after)
  }

  ghost predicate Stand(word: bool, us: Units, after: string)
    decreases us
  {
    match us
    case Nil => true
    case Cons(u, tail) => Stands(word, u, Print(tail) + after) && Stand(InWord(u), tail, after)
  }

  predicate LastInWord(word: bool, us: Units)
    decreases us
  {
    match us
    case Nil => word
    case Cons(u, tail) => LastInWord(InWord(u), tail)
  }

  // ---------------------------------------------------------------- each unit is a lexeme

  lemma {:induction false} BodySpan(end: char, body: seq<Piece>, t: string)
    requires Ends(end, body) && end != '\\'
    ensures var s := PrintBody(body) + ([end] + t); Closes(end, s) && Span(end, s) == |PrintBody(body)| + 1
  {
    var s := PrintBody(body) + ([end] + t);
    if body != [] {
      BodySpan(end, body[1..], t);
      var rest := PrintBody(body[1..]) + ([end] + t);
      match body[0]
      case Bare(c) => assert s == [c] + rest; assert s[1..] == rest;
      case Escaped(c) => assert s == ['\\', c] + rest; assert s[2..] == rest;
    }
  }

  lemma {:induction false} NoteSpan(text: string, t: string)
    requires forall i :: 0 <= i < |text| - 1 ==> !(text[i] == '*' && text[i + 1] == '/')
    ensures CommentSpan(text + ("*/" + t)) == |text| + 2
  {
    var s := text + ("*/" + t);
    if text != "" {
      NoteSpan(text[1..], t);
      assert s[1..] == text[1..] + ("*/" + t);
      assert |text| == 1 ==> s[1] == '*';
    }
  }

  lemma {:induction false} QuotingIff(s: string)
    ensures Quoting(s) <==> QuoteAhead(s)
  {
    if s != "" {
      QuotingIff(s[1..]);
      if k :| 0 <= k < |s| && AllSpace(s[..k]) && (s[k] == '"' || s[k] == '\'') {
        if k > 0 {
          assert s[..k][0] == s[0] && s[1..][..k - 1] == s[..k][1..];
          assert s[1..][k - 1] == s[k];
        }
      }
      if IsSpace(s[0]) && Quoting(s[1..]) {
        var k :| 0 <= k < |s[1..]| && AllSpace(s[1..][..k]) && (s[1..][k] == '"' || s[1..][k] == '\'');
        assert s[..k + 1] == [s[0]] + s[1..][..k];
        assert s[k + 1] == s[1..][k];
      }
      if IsQuote(s[0]) { assert AllSpace(s[..0]); }
    }
  }

  lemma UrlSpelled(s: string)
    requires |s| >= 4
    ensures OpensUrl(s) <==> SpellsUrl(s) && s[3] == '('
  {}

  /** A unit that is no group is one lexeme. */
  lemma UnitIsLexeme(word: bool, u: Unit, after: string)
    requires !u.Group? && Stands(word, u, after)
    ensures var s := PrintUnit(u) + after;
            && s != "" && Len(word, s) == |PrintUnit(u)| && NextWord(word, s) == InWord(u)
            && KindOf(word, s) == match u case One(_) => Kind.Plain case Str(_, _) => Quoted case Token(_, _) => Url case _ => Comment
  {
    match u
    case One(c) => OneIsLexeme(word, c, after);
    case Str(quote, body) => StrIsLexeme(word, quote, body, after);
    case Token(name, body) => TokenIsLexeme(word, name, body, after);
    case Note(text) => NoteIsLexeme(word, text, after);
  }

  lemma OneIsLexeme(word: bool, c: char, after: string)
    requires Stands(word, One(c), after)
    ensures var s := [c] + after; KindOf(word, s).Plain? && NextWord(word, s) == InWord(One(c))
  {
    var s := [c] + after;
    if |s| >= 4 {
      UrlSpelled(s);
      assert s[3] == after[2] && s[4..] == after[3..];
      QuotingIff(after[3..]);
    }
  }

  lemma StrIsLexeme(word: bool, quote: char, body: seq<Piece>, after: string)
    requires Stands(word, Str(quote, body), after)
    ensures var s := PrintUnit(Str(quote, body)) + after;
            KindOf(word, s).Quoted? && Len(word, s) == |PrintUnit(Str(quote, body))|
  {
    var s := PrintUnit(Str(quote, body)) + after;
    assert s[1..] == PrintBody(body) + ([quote] + after);
    BodySpan(quote, body, after);
  }

  /** What follows the parenthesis of a url token. */
  function TokenRest(body: seq<Piece>, after: string): string {
    PrintBody(body) + (")" + after)
  }

  lemma TokenSplits(name: string, body: seq<Piece>, after: string)
    requires |name| == 3
    ensures var s := PrintUnit(Token(name, body)) + after;
            && s[..3] == name && s[3] == '(' && s[4..] == TokenRest(body, after) == (PrintBody(body) + ")") + after
            && |PrintUnit(Token(name, body))| == 4 + |PrintBody(body)| + 1
  {}

  lemma TokenIsLexeme(word: bool, name: string, body: seq<Piece>, after: string)
    requires Stands(word, Token(name, body), after)
    ensures var s := PrintUnit(Token(name, body)) + after;
            KindOf(word, s).Url? && Len(word, s) == |PrintUnit(Token(name, body))|
  {
    var s := PrintUnit(Token(name, body)) + after;
    TokenSplits(name, body, after);
    BodySpan(')', body, after);
    UrlHead(name, s);
    QuotingIff(PrintBody(body) + ")");
    QuoteWithin(PrintBody(body) + ")", after);
  }

  lemma UrlHead(name: string, s: string)
    requires |s| >= 4 && |name| == 3 && s[..3] == name && s[3] == '(' && SpellsUrl(name)
    ensures OpensUrl(s) && !IsQuote(s[0]) && s[0] != '/'
  {
    assert s[0] == name[0] && s[1] == name[1] && s[2] == name[2];
    UrlSpelled(s);
  }

  lemma NoteIsLexeme(word: bool, text: string, after: string)
    requires Stands(word, Note(text), after)
    ensures var s := PrintUnit(Note(text)) + after;
            KindOf(word, s).Comment? && Len(word, s) == |PrintUnit(Note(text))|
  {
    var s := PrintUnit(Note(text)) + after;
    assert s[2..] == text + ("*/" + after);
    NoteSpan(text, after);
  }

  lemma ParenIsLexeme(word: bool, c: char, after: string)
    requires c == '(' || c == ')'
    ensures var s := [c] + after; KindOf(word, s).Plain? && Len(word, s) == 1 && !NextWord(word, s) && s[1..] == after
  {}

  // ---------------------------------------------------------------- comments

  /** Stripping turns each comment of the tree into a space and copies everything else, whatever follows. */
  lemma {:induction false} StripTree(word: bool, us: Units, after: string)
    requires Stand(word, us, after)
    ensures Strip(word, Print(us) + after) == Print(Uncommented(us)) + Strip(LastInWord(word, us), after)
    decreases us, 0
  {
    match us
    case Nil => assert Print(us) + after == after;
    case Cons(u, tail) =>
      var rest := Print(tail) + after;
      Regroup(PrintUnit(u), Print(tail), after);
      StripTree(InWord(u), tail, after);
      if u.Group? { StripGroup(word, u.inner, rest); } else { StripUnit(word, u, rest); }
      StripJoins(us, after);
  }

  /** The first unit's text without comments. */
  function Plainly(u: Unit): string {
    match u
    case Note(_) => " "
    case Group(inner) => "(" + (Print(Uncommented(inner)) + ")")
    case _ => PrintUnit(u)
  }

  lemma StripJoins(us: Units, after: string)
    requires us.Cons?
    ensures Print(Uncommented(us)) == Plainly(us.head) + Print(Uncommented(us.tail))
    ensures forall t :: Print(Uncommented(us)) + t == Plainly(us.head) + (Print(Uncommented(us.tail)) + t)
  {
    forall t ensures Print(Uncommented(us)) + t == Plainly(us.head) + (Print(Uncommented(us.tail)) + t) {
      Regroup(Plainly(us.head), Print(Uncommented(us.tail)), t);
    }
  }

  lemma StripUnit(word: bool, u: Unit, rest: string)
    requires !u.Group? && Stands(word, u, rest)
    ensures Strip(word, PrintUnit(u) + rest) == Plainly(u) + Strip(InWord(u), rest)
  {
    UnitIsLexeme(word, u, rest);
    StripFirst(word, PrintUnit(u), rest);
  }

  lemma StripFirst(word: bool, a: string, rest: string)
    requires a + rest != "" && Len(word, a + rest) == |a|
    ensures Strip(word, a + rest) == Emit(KindOf(word, a + rest), a) + Strip(NextWord(word, a + rest), rest)
  {
    assert (a + rest)[..|a|] == a && (a + rest)[|a|..] == rest;
  }

  lemma StripParen(word: bool, c: char, rest: string)
    requires c == '(' || c == ')'
    ensures Strip(word, [c] + rest) == [c] + Strip(false, rest)
  {
    ParenIsLexeme(word, c, rest);
    StripFirst(word, [c], rest);
  }

  lemma InParens(t: string, rest: string)
    ensures "(" + (t + (")" + rest)) == ("(" + (t + ")")) + rest
  {}

  lemma {:induction false} StripGroup(word: bool, inner: Units, rest: string)
    requires Stand(false, inner, ")" + rest)
    ensures Strip(word, PrintUnit(Group(inner)) + rest) == Plainly(Group(inner)) + Strip(false, rest)
    decreases inner, 1
  {
    InParens(Print(inner), rest);
    StripParen(word, '(', Print(inner) + (")" + rest));
    StripTree(false, inner, ")" + rest);
    StripParen(LastInWord(false, inner), ')', rest);
    InParens(Print(Uncommented(inner)), Strip(false, rest));
  }

  // ---------------------------------------------------------------- declarations

  /** No semicolon outside groups. */
  predicate Uncut(us: Units) {
    match us
    case Nil => true
    case Cons(u, tail) => u != One(';') && Uncut(tail)
  }

  /** Nothing of the tree is cut off: not at depth 0 if its semicolons are all in groups, and nowhere in parentheses. */
  lemma {:induction false} PiecesTree(word: bool, depth: nat, us: Units, after: string)
    requires Stand(word, us, after) && (depth > 0 || Uncut(us))
    ensures Pieces(word, depth, Print(us) + after) == Glue(Print(us), Pieces(LastInWord(word, us), depth, after))
    decreases us, 0
  {
    match us
    case Nil => GlueNothing(Pieces(word, depth, after), after);
    case Cons(u, tail) =>
      var rest := Print(tail) + after;
      Regroup(PrintUnit(u), Print(tail), after);
      PiecesTree(InWord(u), depth, tail, after);
      if u.Group? { PiecesGroup(word, depth, u.inner, rest); } else { PiecesUnit(word, depth, u, rest); }
      GlueGlue(PrintUnit(u), Print(tail), Pieces(LastInWord(word, us), depth, after));
  }

  lemma GlueNothing(ps: seq<string>, after: string)
    requires ps != []
    ensures Glue("", ps) == ps && "" + after == after
  {
    assert "" + ps[0] == ps[0];
  }

  lemma PiecesUnit(word: bool, depth: nat, u: Unit, rest: string)
    requires !u.Group? && Stands(word, u, rest) && (depth > 0 || u != One(';'))
    ensures Pieces(word, depth, PrintUnit(u) + rest) == Glue(PrintUnit(u), Pieces(InWord(u), depth, rest))
  {
    UnitIsLexeme(word, u, rest);
    var s := PrintUnit(u) + rest;
    if u.One? { assert s[0] == u.c; }
    PiecesStep(word, depth, s, PrintUnit(u), rest);
  }

  lemma PiecesOpen(word: bool, depth: nat, rest: string)
    ensures Pieces(word, depth, "(" + rest) == Glue("(", Pieces(false, depth + 1, rest))
  {
    ParenIsLexeme(word, '(', rest);
    PiecesStep(word, depth, "(" + rest, "(", rest);
  }

  lemma PiecesClose(word: bool, depth: nat, rest: string)
    ensures Pieces(word, depth + 1, ")" + rest) == Glue(")", Pieces(false, depth, rest))
  {
    ParenIsLexeme(word, ')', rest);
    PiecesStep(word, depth + 1, ")" + rest, ")", rest);
  }

  lemma {:induction false} PiecesGroup(word: bool, depth: nat, inner: Units, rest: string)
    requires Stand(false, inner, ")" + rest)
    ensures Pieces(word, depth, PrintUnit(Group(inner)) + rest) == Glue(PrintUnit(Group(inner)), Pieces(false, depth, rest))
    decreases inner, 1
  {
    InParens(Print(inner), rest);
    PiecesOpen(word, depth, Print(inner) + (")" + rest));
    PiecesTree(false, depth + 1, inner, ")" + rest);
    PiecesClose(LastInWord(false, inner), depth, rest);
    GlueGlue(Print(inner), ")", Pieces(false, depth, rest));
    GlueGlue("(", Print(inner) + ")", Pieces(false, depth, rest));
  }

  function JoinTrees(ds: seq<Units>): string {
    if ds == [] then "" else if |ds| == 1 then Print(ds[0]) else Print(ds[0]) + (";" + JoinTrees(ds[1..]))
  }

  function Prints(ds: seq<Units>): seq<string> {
    if ds == [] then [] else [Print(ds[0])] + Prints(ds[1..])
  }

  /** Each declaration can be read with what follows it, and has its semicolons in strings, url tokens and groups only. */
  ghost predicate Declares(ds: seq<Units>) {
    ds != [] ==>
      && Uncut(ds[0]) && Stand(false, ds[0], if |ds| == 1 then "" else ";" + JoinTrees(ds[1..]))
      && Declares(ds[1..])
  }

  /** Written one after the other with semicolons between them, declarations are cut into themselves: whatever strings,
      url tokens, comments and nested parentheses they are made of. */
  lemma {:induction false} TreesAreCutApart(ds: seq<Units>)
    requires Declares(ds) && ds != []
    ensures Pieces(false, 0, JoinTrees(ds)) == Prints(ds)
  {
    if |ds| == 1 {
      PiecesTree(false, 0, ds[0], "");
      assert Print(ds[0]) + "" == Print(ds[0]);
    } else {
      var rest := JoinTrees(ds[1..]);
      PiecesTree(false, 0, ds[0], ";" + rest);
      SemicolonCuts(LastInWord(false, ds[0]), rest);
      TreesAreCutApart(ds[1..]);
      GlueFirst(Print(ds[0]), "", Prints(ds[1..]));
      assert Print(ds[0]) + "" == Print(ds[0]);
    }
  }
}
