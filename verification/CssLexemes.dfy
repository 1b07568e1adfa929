/** The lexemes a style text is read as (packages/design/support.js): comments, quoted strings, unquoted
    url tokens and single characters, after sections 4.3.2, 4.3.5 and 4.3.6 of CSS Syntax Module Level 3. */
module CssLexemes {
  import opened Text

  /** /[a-z0-9_-]/i */
  predicate IsWordChar(c: char) {
    'a' <= Lower(c) <= 'z' || IsDigit(c) || c == '_' || c == '-'
  }

  predicate IsQuote(c: char) { c == '"' || c == '\'' }

  /** Length of the text up to and including the first unescaped `end`, or all of it when there is none. */
  function Span(end: char, s: string): (n: nat)
    ensures n <= |s| && (s != "" ==> n > 0)
  {
    if s == "" then 0
    else if s[0] == '\\' then (if |s| == 1 then 1 else 2 + Span(end, s[2..]))
    else if s[0] == end then 1
    else 1 + Span(end, s[1..])
  }

  /** Whether there is an unescaped `end`. */
  predicate Closes(end: char, s: string) {
    if s == "" then false
    else if s[0] == '\\' then |s| > 1 && Closes(end, s[2..])
    else s[0] == end || Closes(end, s[1..])
  }

  /** Length of the text up to and including the first `*` `/` pair, or all of it. */
  function CommentSpan(s: string): (n: nat)
    ensures n <= |s|
  {
    if s == "" then 0
    else if |s| > 1 && s[0] == '*' && s[1] == '/' then 2
    else 1 + CommentSpan(s[1..])
  }

  predicate OpensUrl(s: string) {
    |s| >= 4 && Lower(s[0]) == 'u' && Lower(s[1]) == 'r' && Lower(s[2]) == 'l' && s[3] == '('
  }

  /** The first character that is not whitespace is a quote. */
  predicate QuoteAhead(s: string) {
    s != "" && (if IsSpace(s[0]) then QuoteAhead(s[1..]) else IsQuote(s[0]))
  }

  predicate OpensComment(s: string) {
    |s| >= 2 && s[0] == '/' && s[1] == '*'
  }

  datatype Kind = Comment | Quoted | Url | Plain

  /** What a text starts with; `word` says that a word character stands just before it. */
  function KindOf(word: bool, s: string): Kind
    requires s != ""
  {
    if IsQuote(s[0]) then Quoted
    else if OpensComment(s) then Comment
    else if !word && OpensUrl(s) && !QuoteAhead(s[4..]) then Url
    else Plain
  }

  function LenOf(k: Kind, s: string): (n: nat)
    requires s != "" && (k.Url? ==> |s| >= 4) && (k.Comment? ==> |s| >= 2)
    ensures 0 < n <= |s|
  {
    match k
    case Plain => 1
    case Quoted => 1 + Span(s[0], s[1..])
    case Url => 4 + Span(')', s[4..])
    case Comment => 2 + CommentSpan(s[2..])
  }

  function Len(word: bool, s: string): (n: nat)
    requires s != ""
    ensures 0 < n <= |s|
  {
    LenOf(KindOf(word, s), s)
  }

  /** The lexeme is complete, whatever text may follow. */
  predicate Complete(word: bool, s: string)
    requires s != ""
  {
    match KindOf(word, s)
    case Plain => true
    case Quoted => Closes(s[0], s[1..])
    case Url => Closes(')', s[4..])
    case Comment => false
  }

  function NextWord(word: bool, s: string): bool
    requires s != ""
  {
    KindOf(word, s).Plain? && IsWordChar(s[0])
  }

  // ---------------------------------------------------------------- spans and what follows them

  lemma {:induction false} SpanGrow(end: char, s: string, t: string)
    requires Closes(end, s)
    ensures Closes(end, s + t) && Span(end, s + t) == Span(end, s)
  {
    if s[0] == '\\' {
      assert (s + t)[2..] == s[2..] + t;
      SpanGrow(end, s[2..], t);
    } else if s[0] != end {
      assert (s + t)[1..] == s[1..] + t;
      SpanGrow(end, s[1..], t);
    }
  }

  lemma {:induction false} SpanShrink(end: char, s: string, t: string)
    requires Closes(end, s + t) && Span(end, s + t) <= |s|
    ensures Closes(end, s) && Span(end, s) == Span(end, s + t)
  {
    assert s == "" ==> s + t == t;
    if s[0] == '\\' {
      if |s| > 1 {
        assert (s + t)[2..] == s[2..] + t;
        SpanShrink(end, s[2..], t);
      }
    } else if s[0] != end {
      assert (s + t)[1..] == s[1..] + t;
      SpanShrink(end, s[1..], t);
    }
  }

  lemma {:induction false} SpanOpen(end: char, s: string)
    requires !Closes(end, s)
    ensures Span(end, s) == |s|
  {
    if s == "" {
    } else if s[0] == '\\' {
      if |s| > 1 { SpanOpen(end, s[2..]); }
    } else {
      SpanOpen(end, s[1..]);
    }
  }

  /** The character that closes a span is its last one. */
  lemma {:induction false} SpanLast(end: char, s: string)
    requires Closes(end, s)
    ensures 0 < Span(end, s) && s[Span(end, s) - 1] == end
  {
    if s[0] == '\\' {
      SpanLast(end, s[2..]);
    } else if s[0] != end {
      SpanLast(end, s[1..]);
    }
  }

  /** Text without the closing character leaves an open span open. */
  lemma {:induction false} StaysOpen(end: char, s: string, t: string)
    requires !Closes(end, s) && end != '\\' && forall i | 0 <= i < |t| :: t[i] != end
    ensures !Closes(end, s + t)
  {
    if s == "" {
      assert s + t == t;
      NeverCloses(end, t);
    } else if s[0] == '\\' {
      if |s| == 1 {
        assert t != "" ==> (s + t)[2..] == t[1..];
        if t != "" { NeverCloses(end, t[1..]); }
      } else {
        assert (s + t)[2..] == s[2..] + t;
        StaysOpen(end, s[2..], t);
      }
    } else {
      assert (s + t)[1..] == s[1..] + t;
      StaysOpen(end, s[1..], t);
    }
  }

  lemma {:induction false} NeverCloses(end: char, t: string)
    requires forall i | 0 <= i < |t| :: t[i] != end
    ensures !Closes(end, t)
  {
    if t == "" {
    } else if t[0] == '\\' {
      if |t| > 1 { NeverCloses(end, t[2..]); }
    } else {
      NeverCloses(end, t[1..]);
    }
  }

  lemma {:induction false} QuoteAheadGrow(s: string, t: string)
    requires QuoteAhead(s)
    ensures QuoteAhead(s + t)
  {
    if IsSpace(s[0]) {
      assert (s + t)[1..] == s[1..] + t;
      QuoteAheadGrow(s[1..], t);
    }
  }

  lemma {:induction false} QuoteAheadShrink(s: string, t: string)
    requires QuoteAhead(s + t) && !QuoteAhead(t)
    ensures QuoteAhead(s)
  {
    assert s == "" ==> s + t == t;
    if IsSpace(s[0]) {
      assert (s + t)[1..] == s[1..] + t;
      QuoteAheadShrink(s[1..], t);
    }
  }

  lemma {:induction false} SpaceNoQuote(t: string)
    requires AllSpace(t)
    ensures !QuoteAhead(t)
  {
    if t != "" { SpaceNoQuote(t[1..]); }
  }

  // ---------------------------------------------------------------- lexemes and what follows them

  /** A text that can follow another without changing how the other is read: it starts with `;` or with
      whitespace, and no quote is the first thing in it. */
  predicate Apart(t: string) {
    t == "" || ((t[0] == ';' || IsSpace(t[0])) && !QuoteAhead(t))
  }

  lemma OpensUrlGrow(s: string, t: string)
    requires s != "" && Apart(t)
    ensures OpensUrl(s + t) <==> OpensUrl(s)
  {
    assert t != "" ==> (s + t)[|s|] == t[0];
  }

  lemma OpensCommentGrow(s: string, t: string)
    requires s != "" && Apart(t)
    ensures OpensComment(s + t) <==> OpensComment(s)
  {}

  /** What a text starts with does not depend on an apart text after it. */
  lemma KindStable(word: bool, s: string, t: string)
    requires s != "" && Apart(t)
    ensures KindOf(word, s + t) == KindOf(word, s)
  {
    OpensUrlGrow(s, t);
    OpensCommentGrow(s, t);
    if OpensUrl(s) {
      assert (s + t)[4..] == s[4..] + t;
      if QuoteAhead(s[4..]) { QuoteAheadGrow(s[4..], t); }
      else if QuoteAhead(s[4..] + t) { QuoteAheadShrink(s[4..], t); }
    }
  }

  /** A complete lexeme reads the same whatever apart text follows. */
  lemma LexGrow(word: bool, s: string, t: string)
    requires s != "" && Apart(t) && Complete(word, s)
    ensures KindOf(word, s + t) == KindOf(word, s) && Len(word, s + t) == Len(word, s) && Complete(word, s + t)
  {
    KindStable(word, s, t);
    match KindOf(word, s)
    case Quoted =>
      assert (s + t)[1..] == s[1..] + t;
      SpanGrow(s[0], s[1..], t);
    case Url =>
      assert (s + t)[4..] == s[4..] + t;
      SpanGrow(')', s[4..], t);
    case _ =>
  }

  /** Conversely, cutting a text back to no less than its first lexeme leaves that lexeme as it was. */
  lemma LexShrink(word: bool, s: string, t: string)
    requires s != "" && Apart(t) && Complete(word, s + t) && Len(word, s + t) <= |s|
    ensures KindOf(word, s + t) == KindOf(word, s) && Len(word, s + t) == Len(word, s) && Complete(word, s)
  {
    KindStable(word, s, t);
    match KindOf(word, s)
    case Quoted =>
      assert (s + t)[1..] == s[1..] + t;
      SpanShrink(s[0], s[1..], t);
    case Url =>
      assert (s + t)[4..] == s[4..] + t;
      SpanShrink(')', s[4..], t);
    case _ =>
  }

  /** An incomplete lexeme takes in everything to the end. */
  lemma IncompleteIsAll(word: bool, s: string)
    requires s != "" && !Complete(word, s) && !KindOf(word, s).Comment?
    ensures Len(word, s) == |s|
  {
    match KindOf(word, s)
    case Quoted => SpanOpen(s[0], s[1..]);
    case Url => SpanOpen(')', s[4..]);
    case _ =>
  }
}
