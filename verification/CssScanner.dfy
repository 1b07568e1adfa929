/** `stripComments` and `importantify` (packages/design/support.js): the character loops, and what they do
    to every text, terminated or not. */
module CssScanner {
  import opened Text
  import opened CssLexemes

  // ---------------------------------------------------------------- comments

  function Emit(k: Kind, lexeme: string): string {
    if k.Comment? then " " else lexeme
  }

  /** Every comment becomes one space; every other lexeme is copied as it is. */
  function Strip(word: bool, s: string): string
    decreases |s|
  {
    if s == "" then ""
    else
      var n := Len(word, s);
      Emit(KindOf(word, s), s[..n]) + Strip(NextWord(word, s), s[n..])
  }

  /** No lexeme is a comment. */
  predicate NoComments(word: bool, s: string)
    decreases |s|
  {
    s == "" || (!KindOf(word, s).Comment? && NoComments(NextWord(word, s), s[Len(word, s)..]))
  }

  lemma {:induction false} NothingToStrip(word: bool, s: string)
    requires NoComments(word, s)
    ensures Strip(word, s) == s
    decreases |s|
  {
    if s != "" {
      var n := Len(word, s);
      NothingToStrip(NextWord(word, s), s[n..]);
      assert s == s[..n] + s[n..];
    }
  }

  /** Stripping keeps the first character or puts a space there. */
  lemma StripHead(word: bool, s: string)
    requires s != ""
    ensures Strip(word, s) != "" && (Strip(word, s)[0] == ' ' || (Strip(word, s)[0] == s[0] && !KindOf(word, s).Comment?))
  {}

  lemma StripPlain(word: bool, s: string)
    requires s != "" && KindOf(word, s).Plain?
    ensures Strip(word, s) == [s[0]] + Strip(IsWordChar(s[0]), s[1..])
  {
    assert s[..1] == [s[0]];
  }

  lemma {:induction false} StripKeepsQuoteAhead(word: bool, s: string)
    requires QuoteAhead(s)
    ensures QuoteAhead(Strip(word, s))
    decreases |s|
  {
    if IsSpace(s[0]) {
      StripPlain(word, s);
      StripKeepsQuoteAhead(IsWordChar(s[0]), s[1..]);
      assert Strip(word, s)[1..] == Strip(IsWordChar(s[0]), s[1..]);
    } else {
      StripHead(word, s);
      assert !IsSpace(s[0]) && KindOf(word, s).Quoted?;
      var n := Len(word, s);
      assert Strip(word, s)[0] == s[..n][0];
    }
  }

  /** A letter (or parenthesis) that shows up first after stripping was there first before. */
  lemma StripShows(word: bool, s: string, c: char)
    requires s != "" && Strip(word, s) != "" && Strip(word, s)[0] == c
    requires c != ' ' && c != '/' && !IsQuote(c) && Lower(c) != 'u'
    ensures s[0] == c && Strip(word, s) == [c] + Strip(IsWordChar(c), s[1..])
  {
    StripHead(word, s);
    assert KindOf(word, s).Plain?;
    StripPlain(word, s);
  }

  lemma StripEmpty(word: bool, s: string)
    ensures Strip(word, s) == "" <==> s == ""
  {
    if s != "" { StripHead(word, s); }
  }

  lemma ParenShows(s: string)
    requires Strip(true, s) != "" && Strip(true, s)[0] == '('
    ensures s != "" && s[0] == '(' && Strip(true, s)[1..] == Strip(false, s[1..])
  {
    StripEmpty(true, s);
    StripShows(true, s, '(');
  }

  /** One letter of the token name, in front of what the rest of the name already shows. */
  lemma LetterShows(s: string, c: char)
    requires Strip(true, s) != "" && Strip(true, s)[0] == c && (Lower(c) == 'r' || Lower(c) == 'l')
    ensures s != "" && s[0] == c && Strip(true, s)[1..] == Strip(true, s[1..])
  {
    StripEmpty(true, s);
    StripShows(true, s, c);
  }

  lemma UrlShows(rest: string)
    requires var t := Strip(true, rest); |t| >= 3 && Lower(t[0]) == 'r' && Lower(t[1]) == 'l' && t[2] == '('
    ensures |rest| >= 3 && rest[..3] == Strip(true, rest)[..3]
    ensures Strip(true, rest)[3..] == Strip(false, rest[3..])
  {
    var t := Strip(true, rest);
    LetterShows(rest, t[0]);
    LetterShows(rest[1..], t[1]);
    ParenShows(rest[1..][1..]);
    assert rest[1..][1..][1..] == rest[3..];
    assert t[1..][1..][1..] == t[3..];
  }

  /** Stripping the text after a plain `u` makes no url token out of it. */
  lemma StripMakesNoUrl(u: char, rest: string)
    requires Lower(u) == 'u' && KindOf(false, [u] + rest).Plain?
    ensures KindOf(false, [u] + Strip(true, rest)).Plain?
  {
    var t := Strip(true, rest);
    var s := [u] + t;
    if OpensUrl(s) {
      assert s[1] == t[0] && s[2] == t[1] && s[3] == t[2] && s[4..] == t[3..];
      UrlShows(rest);
      var s0 := [u] + rest;
      assert s0[1] == rest[..3][0] && s0[2] == rest[..3][1] && s0[3] == rest[..3][2] && s0[4..] == rest[3..];
      StripKeepsQuoteAhead(false, rest[3..]);
    }
  }

  /** A plain character stays plain in front of the stripped text. */
  lemma PlainStays(word: bool, s: string)
    requires s != "" && KindOf(word, s).Plain?
    ensures KindOf(word, Strip(word, s)).Plain?
  {
    StripPlain(word, s);
    var c, rest := s[0], s[1..];
    var t := Strip(IsWordChar(c), rest);
    assert s == [c] + rest;
    if c == '/' {
      if rest != "" { StripHead(false, rest); }
      assert t != "" ==> ([c] + t)[1] == t[0];
      assert rest != "" ==> s[1] == rest[0];
    } else if !word && Lower(c) == 'u' {
      StripMakesNoUrl(c, rest);
    }
  }

  /** A quoted string or url token is the same lexeme in front of any other text, if it was complete or
      nothing follows. */
  lemma TokenStays(word: bool, s: string, t: string)
    requires s != "" && (KindOf(word, s).Quoted? || KindOf(word, s).Url?)
    requires Complete(word, s) || t == ""
    ensures var n := Len(word, s);
            KindOf(word, s[..n] + t) == KindOf(word, s) && Len(word, s[..n] + t) == n
  {
    var n := Len(word, s);
    if !Complete(word, s) {
      IncompleteIsAll(word, s);
      assert s[..n] + t == s;
    } else if KindOf(word, s).Quoted? {
      QuotedStays(s, t);
    } else {
      UrlStays(word, s, t);
    }
  }

  lemma {:induction false} SpanKeeps(end: char, s: string, t: string)
    requires Closes(end, s)
    ensures Closes(end, s[..Span(end, s)] + t) && Span(end, s[..Span(end, s)] + t) == Span(end, s)
  {
    var n := Span(end, s);
    assert s == s[..n] + s[n..];
    SpanLast(end, s);
    SpanShrink(end, s[..n], s[n..]);
    SpanGrow(end, s[..n], t);
  }

  lemma QuotedStays(s: string, t: string)
    requires s != "" && IsQuote(s[0]) && Closes(s[0], s[1..])
    ensures var n := LenOf(Quoted, s);
            (s[..n] + t)[0] == s[0] && LenOf(Quoted, s[..n] + t) == n
  {
    var n := Span(s[0], s[1..]);
    SpanKeeps(s[0], s[1..], t);
    assert (s[..1 + n] + t)[1..] == s[1..][..n] + t;
  }

  lemma UrlStays(word: bool, s: string, t: string)
    requires s != "" && KindOf(word, s).Url? && Closes(')', s[4..])
    ensures var n := LenOf(Url, s);
            KindOf(word, s[..n] + t).Url? && LenOf(Url, s[..n] + t) == n
  {
    var n := Span(')', s[4..]);
    SpanKeeps(')', s[4..], t);
    var body := s[4..][..n];
    var u := s[..4 + n] + t;
    assert u[4..] == body + t && u[..4] == s[..4];
    assert s[4..] == body + s[4 + n..];
    SpanLast(')', s[4..]);
    assert body != "" && body[n - 1] == ')';
    QuoteWithin(body, t);
    QuoteWithin(body, s[4 + n..]);
  }

  /** Whether a quote comes first is settled within a text that holds a `)`. */
  lemma {:induction false} QuoteWithin(body: string, t: string)
    requires body != "" && body[|body| - 1] == ')'
    ensures QuoteAhead(body + t) <==> QuoteAhead(body)
  {
    if IsSpace(body[0]) {
      assert (body + t)[1..] == body[1..] + t;
      QuoteWithin(body[1..], t);
    }
  }

  /** What stripping leaves holds no comment, read from the same place. */
  lemma {:induction false} StrippedHasNoComments(word: bool, s: string)
    ensures NoComments(word, Strip(word, s))
    decreases |s|
  {
    if s != "" {
      var n := Len(word, s);
      var t := Strip(NextWord(word, s), s[n..]);
      StrippedHasNoComments(NextWord(word, s), s[n..]);
      StrippedStep(word, s, t);
      var out := Strip(word, s);
      assert out == Emit(KindOf(word, s), s[..n]) + t;
      assert out[Len(word, out)..] == t;
    }
  }

  /** The first lexeme of the stripped text is what the first lexeme of the text was turned into. */
  lemma StrippedStep(word: bool, s: string, t: string)
    requires s != "" && t == Strip(NextWord(word, s), s[Len(word, s)..])
    ensures var out := Emit(KindOf(word, s), s[..Len(word, s)]) + t;
            && !KindOf(word, out).Comment? && NextWord(word, out) == NextWord(word, s)
            && Len(word, out) == |Emit(KindOf(word, s), s[..Len(word, s)])|
  {
    match KindOf(word, s)
    case Comment =>
      assert KindOf(word, " " + t).Plain?;
    case Plain =>
      PlainStays(word, s);
      StripPlain(word, s);
      assert s[..1] == [s[0]];
    case _ =>
      if !Complete(word, s) { IncompleteIsAll(word, s); }
      TokenStays(word, s, t);
  }

  /** `stripComments` changes nothing the second time, on every text. */
  lemma StripIsIdempotent(s: string)
    ensures Strip(false, Strip(false, s)) == Strip(false, s)
  {
    StrippedHasNoComments(false, s);
    NothingToStrip(false, Strip(false, s));
  }

  // ---------------------------------------------------------------- the loops

  /** css[i - 1] is a word character. */
  predicate WordBefore(css: string, i: nat) {
    0 < i <= |css| && IsWordChar(css[i - 1])
  }

  lemma SpanStep(end: char, css: string, j: nat)
    requires j < |css|
    ensures css[j] != end && css[j] != '\\' ==> Span(end, css[j..]) == 1 + Span(end, css[j + 1..])
    ensures css[j] == '\\' && j + 1 < |css| ==> Span(end, css[j..]) == 2 + Span(end, css[j + 2..])
    ensures css[j] == '\\' && j + 1 == |css| ==> Span(end, css[j..]) == 1
    ensures css[j] == end != '\\' ==> Span(end, css[j..]) == 1
  {
    assert css[j..][1..] == css[j + 1..];
    if j + 1 < |css| { assert css[j..][2..] == css[j + 2..]; }
  }

  /** Between k and j the scan to the closing parenthesis has passed j - k characters. */
  predicate SpanPassed(css: string, k: nat, j: nat) {
    k <= j <= |css| && Span(')', css[k..]) == j - k + Span(')', css[j..])
  }

  lemma SpanPasses(css: string, k: nat, j: nat)
    requires SpanPassed(css, k, j) && j < |css| && css[j] != ')'
    ensures SpanPassed(css, k, if css[j] == '\\' && j + 1 < |css| then j + 2 else j + 1)
  {
    SpanStep(')', css, j);
    if css[j] == '\\' && j + 1 == |css| { assert css[j + 1..] == ""; }
  }

  lemma QuoteAheadSkips(css: string, j: nat)
    requires j < |css| && IsSpace(css[j])
    ensures QuoteAhead(css[j..]) == QuoteAhead(css[j + 1..])
  {
    assert css[j..][1..] == css[j + 1..];
  }

  /** The end of the unquoted url token at position i, or -1 when there is none. */
  method ScanUnquotedUrl(css: string, i: nat) returns (end: int)
    requires i < |css|
    ensures end == if !WordBefore(css, i) && OpensUrl(css[i..]) && !QuoteAhead(css[i..][4..])
                   then i + LenOf(Url, css[i..]) else -1
  {
    if i + 4 > |css| || !(Lower(css[i]) == 'u' && Lower(css[i + 1]) == 'r' && Lower(css[i + 2]) == 'l' && css[i + 3] == '(') || WordBefore(css, i) {
      return -1;
    }
    assert css[i..][4..] == css[i + 4..];
    var j := i + 4;
    while j < |css| && IsSpace(css[j])
      invariant SpanPassed(css, i + 4, j) && QuoteAhead(css[i + 4..]) == QuoteAhead(css[j..])
    {
      SpanPasses(css, i + 4, j);
      QuoteAheadSkips(css, j);
      j := j + 1;
    }
    if j < |css| && (css[j] == '"' || css[j] == '\'') { return -1; }
    end := ScanToParenthesis(css, i + 4, j);
  }

  /** Past the closing parenthesis, or to the end. */
  method ScanToParenthesis(css: string, k: nat, start: nat) returns (end: nat)
    requires SpanPassed(css, k, start)
    ensures end == k + Span(')', css[k..])
  {
    var j := start;
    while j < |css| && css[j] != ')'
      invariant SpanPassed(css, k, j)
      decreases |css| - j
    {
      SpanPasses(css, k, j);
      j := if css[j] == '\\' && j + 1 < |css| then j + 2 else j + 1;
    }
    if j < |css| { SpanStep(')', css, j); }
    end := if j < |css| then j + 1 else |css|;
  }

  /** The rest of a text from inside a string that `quote` closes, stripped. */
  function StripString(quote: char, s: string): string {
    s[..Span(quote, s)] + Strip(false, s[Span(quote, s)..])
  }

  lemma SliceTwice(s: string, k: nat, n: nat)
    requires k <= n <= |s|
    ensures s[..n] == s[..k] + s[k..][..n - k] && s[n..] == s[k..][n - k..]
  {}

  lemma StripStringCut(quote: char, s: string, k: nat)
    requires k <= Span(quote, s) && (k < |s| ==> Span(quote, s) == k + Span(quote, s[k..]))
    ensures StripString(quote, s) == s[..k] + StripString(quote, s[k..])
  {
    var n := Span(quote, s);
    if k < |s| {
      SliceTwice(s, k, n);
      Regroup(s[..k], s[k..][..n - k], Strip(false, s[n..]));
    } else {
      assert s[k..] == "" && s[n..] == "";
    }
  }

  lemma Regroup(a: string, b: string, c: string)
    ensures a + (b + c) == (a + b) + c
  {}

  /** Inside a string every character is copied, an escaped one together with its backslash. */
  lemma StripStringCopies(quote: char, css: string, i: nat, next: nat)
    requires i < |css| && css[i] != quote
    requires next == if css[i] == '\\' && i + 1 < |css| then i + 2 else i + 1
    ensures StripString(quote, css[i..]) == css[i..next] + StripString(quote, css[next..])
  {
    SpanStep(quote, css, i);
    StripStringCut(quote, css[i..], next - i);
    assert css[i..][..next - i] == css[i..next] && css[i..][next - i..] == css[next..];
  }

  lemma StripStringCloses(quote: char, css: string, i: nat)
    requires i < |css| && css[i] == quote != '\\'
    ensures StripString(quote, css[i..]) == [quote] + Strip(false, css[i + 1..])
  {
    var s := css[i..];
    assert s[..1] == [quote] && s[1..] == css[i + 1..];
  }

  lemma StripOpensString(word: bool, s: string)
    requires s != "" && IsQuote(s[0])
    ensures Strip(word, s) == [s[0]] + StripString(s[0], s[1..])
  {
    var n := Span(s[0], s[1..]);
    assert s[..1 + n] == [s[0]] + s[1..][..n] && s[1 + n..] == s[1..][n..];
  }

  lemma {:induction false} CommentLast(s: string)
    requires CommentSpan(s) < |s|
    ensures CommentSpan(s) > 0 && s[CommentSpan(s) - 1] == '/'
  {
    if !(|s| > 1 && s[0] == '*' && s[1] == '/') { CommentLast(s[1..]); }
  }

  /** The flag the loop reads off the text is the one the lexemes pass on. */
  lemma WordAfter(css: string, i: nat, next: nat)
    requires i < |css| && !IsQuote(css[i]) && next == i + Len(WordBefore(css, i), css[i..]) < |css|
    ensures WordBefore(css, next) == NextWord(WordBefore(css, i), css[i..])
  {
    var s, w := css[i..], WordBefore(css, i);
    if KindOf(w, s).Comment? {
      CommentLast(s[2..]);
      assert css[next - 1] == s[2..][next - i - 3];
    } else if KindOf(w, s).Url? {
      if !Complete(w, s) { IncompleteIsAll(w, s); }
      SpanLast(')', s[4..]);
      assert css[next - 1] == s[4..][next - i - 5];
    }
  }

  /** Outside strings: what Strip does to the lexeme at position i. */
  lemma StripAt(css: string, i: nat, next: nat)
    requires i < |css| && !IsQuote(css[i]) && next == i + Len(WordBefore(css, i), css[i..])
    ensures Strip(WordBefore(css, i), css[i..])
            == Emit(KindOf(WordBefore(css, i), css[i..]), css[i..next]) + Strip(WordBefore(css, next), css[next..])
  {
    var s, w := css[i..], WordBefore(css, i);
    assert s[..next - i] == css[i..next] && s[next - i..] == css[next..];
    if next < |css| { WordAfter(css, i, next); }
  }

  /** What is still to come at position i of the loop. */
  function Remaining(css: string, i: nat, quote: string): string
    requires i <= |css|
  {
    if quote == "" then Strip(WordBefore(css, i), css[i..]) else StripString(quote[0], css[i..])
  }

  method StripComments(css: string) returns (out: string)
    ensures out == Strip(false, css)
  {
    out := "";
    var quote := "";
    var i := 0;
    while i < |css|
      invariant i <= |css| && (quote == "" || (|quote| == 1 && IsQuote(quote[0])))
      invariant Strip(false, css) == out + Remaining(css, i, quote)
      decreases |css| - i
    {
      var piece, quote', i';
      if quote != "" {
        piece, quote', i' := CopyInString(css, i, quote);
      } else {
        piece, quote', i' := CopyOutside(css, i);
      }
      Regroup(out, piece, Remaining(css, i', quote'));
      out, quote, i := out + piece, quote', i';
    }
    assert css[i..] == "";
  }

  /** The loop body inside a string. */
  method CopyInString(css: string, i: nat, quote: string) returns (piece: string, quote': string, i': nat)
    requires i < |css| && |quote| == 1 && IsQuote(quote[0])
    ensures i < i' <= |css| && (quote' == "" || quote' == quote)
    ensures Remaining(css, i, quote) == piece + Remaining(css, i', quote')
  {
    if css[i] == quote[0] {
      StripStringCloses(quote[0], css, i);
      return [css[i]], "", i + 1;
    }
    i' := if css[i] == '\\' && i + 1 < |css| then i + 2 else i + 1;
    StripStringCopies(quote[0], css, i, i');
    return css[i..i'], quote, i';
  }

  lemma RemainingString(css: string, i: nat)
    requires i < |css| && IsQuote(css[i])
    ensures Remaining(css, i, "") == [css[i]] + Remaining(css, i + 1, [css[i]])
  {
    StripOpensString(WordBefore(css, i), css[i..]);
    assert css[i..][1..] == css[i + 1..];
  }

  /** Past one lexeme. */
  lemma RemainingAt(css: string, i: nat, next: nat)
    requires i < |css| && !IsQuote(css[i]) && next == i + Len(WordBefore(css, i), css[i..])
    ensures Remaining(css, i, "") == Emit(KindOf(WordBefore(css, i), css[i..]), css[i..next]) + Remaining(css, next, "")
  {
    StripAt(css, i, next);
  }

  lemma CommentLen(word: bool, css: string, i: nat)
    requires i + 1 < |css| && css[i] == '/' && css[i + 1] == '*'
    ensures KindOf(word, css[i..]).Comment? && Len(word, css[i..]) == 2 + CommentSpan(css[i + 2..])
  {
    assert css[i..][2..] == css[i + 2..];
  }

  lemma RemainingComment(css: string, i: nat, next: nat)
    requires i + 1 < |css| && css[i] == '/' && css[i + 1] == '*' && next == i + 2 + CommentSpan(css[i + 2..])
    ensures next <= |css| && Remaining(css, i, "") == " " + Remaining(css, next, "")
  {
    CommentLen(WordBefore(css, i), css, i);
    RemainingAt(css, i, next);
  }

  lemma RemainingUrl(css: string, i: nat)
    requires i < |css| && !WordBefore(css, i) && OpensUrl(css[i..]) && !QuoteAhead(css[i..][4..])
    ensures var next := i + LenOf(Url, css[i..]);
            next <= |css| && Remaining(css, i, "") == css[i..next] + Remaining(css, next, "")
  {
    RemainingAt(css, i, i + LenOf(Url, css[i..]));
  }

  lemma RemainingPlain(css: string, i: nat)
    requires i < |css| && KindOf(WordBefore(css, i), css[i..]).Plain?
    ensures Remaining(css, i, "") == [css[i]] + Remaining(css, i + 1, "")
  {
    RemainingAt(css, i, i + 1);
    assert css[i..i + 1] == [css[i]];
  }

  /** The loop body outside strings. */
  method CopyOutside(css: string, i: nat) returns (piece: string, quote': string, i': nat)
    requires i < |css|
    ensures i < i' <= |css| && (quote' == "" || (|quote'| == 1 && IsQuote(quote'[0])))
    ensures Remaining(css, i, "") == piece + Remaining(css, i', quote')
  {
    var c := css[i];
    if c == '\'' || c == '"' {
      RemainingString(css, i);
      return [c], [c], i + 1;
    }
    piece, i' := CopyLexeme(css, i);
    quote' := "";
  }

  method CopyLexeme(css: string, i: nat) returns (piece: string, i': nat)
    requires i < |css| && !IsQuote(css[i])
    ensures i < i' <= |css|
    ensures Remaining(css, i, "") == piece + Remaining(css, i', "")
  {
    if css[i] == '/' && i + 1 < |css| && css[i + 1] == '*' {
      piece, i' := CopyComment(css, i);
    } else {
      piece, i' := CopyUrlOrPlain(css, i);
    }
  }

  method CopyComment(css: string, i: nat) returns (piece: string, i': nat)
    requires i + 1 < |css| && css[i] == '/' && css[i + 1] == '*'
    ensures i < i' <= |css|
    ensures Remaining(css, i, "") == piece + Remaining(css, i', "")
  {
    piece, i' := " ", i + 2 + CommentSpan(css[i + 2..]);
    RemainingComment(css, i, i');
  }

  method CopyUrlOrPlain(css: string, i: nat) returns (piece: string, i': nat)
    requires i < |css| && !IsQuote(css[i]) && !(css[i] == '/' && i + 1 < |css| && css[i + 1] == '*')
    ensures i < i' <= |css|
    ensures Remaining(css, i, "") == piece + Remaining(css, i', "")
  {
    var end := ScanUnquotedUrl(css, i);
    if end != -1 {
      RemainingUrl(css, i);
      return css[i..end], end;
    }
    RemainingPlain(css, i);
    return [css[i]], i + 1;
  }
}
