/** Interpreter correctness: the resolver gives the text of an expression tree the value of the tree. */
module ExprTrees {
  import opened Options
  import opened Text
  import opened ExprResolver

  /** Expression trees with the spelling choices a template author has: extra parentheses and whitespace. */
  datatype Expr =
    | Keyword(word: string)
    | Number(text: string)
    | Quoted(quote: char, body: string)
    | Name(name: string)
    | Member(base: Expr, member: string)
    | Index(base: Expr, at: Expr)
    | Not(e: Expr)
    | Compare(op: Op, l: Expr, r: Expr)
    | Paren(e: Expr)
    | Pad(before: string, e: Expr, after: string)

  function Spell(e: Expr): string {
    match e
    case Keyword(word) => word
    case Number(text) => text
    case Quoted(quote, body) => Wrap(quote, body, quote)
    case Name(name) => name
    case Member(base, member) => Spell(base) + ("." + member)
    case Index(base, at) => Spell(base) + Wrap('[', Spell(at), ']')
    case Not(e) => "!" + Spell(e)
    case Compare(op, l, r) => Spell(l) + (OpText(op) + Spell(r))
    case Paren(e) => Wrap('(', Spell(e), ')')
    case Pad(before, e, after) => before + Spell(e) + after
  }

  /** The tree's own meaning, with no text in sight. */
  ghost function Meaning(h: Host, vals: Value, e: Expr): Value {
    match e
    case Keyword(word) =>
      (match word
       case "true" => Bool(true)
       case "false" => Bool(false)
       case "null" => Null
       case _ => Undefined)
    case Number(text) => h.number(text)
    case Quoted(_, body) => Str(body)
    case Name(name) => if vals == Undefined || vals == Null then Undefined else h.get(vals, Str(name))
    case Member(base, member) =>
      var b := Meaning(h, vals, base);
      if b == Undefined || b == Null then Undefined else h.get(b, Str(member))
    case Index(base, at) =>
      var b, key := Meaning(h, vals, base), Meaning(h, vals, at);
      if b == Undefined || b == Null then Undefined else h.get(b, key)
    case Not(e) => h.negate(Meaning(h, vals, e))
    case Compare(op, l, r) => h.compare(op, Meaning(h, vals, l), Meaning(h, vals, r))
    case Paren(e) => Meaning(h, vals, e)
    case Pad(_, e, _) => Meaning(h, vals, e)
  }

  function Core(e: Expr): Expr {
    if e.Pad? then Core(e.e) else e
  }

  predicate IsIdent(s: string) { s != "" && IdentLen(s) == |s| }

  predicate IsName(s: string) { s != "" && (IdentLen(s) == |s| || DigitsLen(s) == |s|) }

  ghost predicate NoBrackets(s: string) {
    forall i | 0 <= i < |s| :: s[i] !in "()[]"
  }

  /** No `==` or `!=` anywhere. */
  ghost predicate NoEquality(s: string) {
    forall i | 0 <= i < |s| - 1 :: !(EqChar(s[i]) && s[i + 1] == '=')
  }

  predicate IsPath(e: Expr) {
    match e
    case Name(_) => true
    case Member(base, _) => IsPath(base)
    case Index(base, _) => IsPath(base)
    case _ => false
  }

  /** The trees the text form can carry: the operand of `!` and the left operand of an equality are
      parenthesised when they are equalities themselves, and the brackets of a string literal balance, with no
      `==` or `!=` outside them. A bare name is not a keyword. */
  ghost predicate Writable(e: Expr) {
    match e
    case Keyword(word) => IsKeyword(word)
    case Number(text) => IsNumber(text)
    case Quoted(quote, body) => (quote == '"' || quote == '\'') && AllBalanced(body) && EqFree(body)
    case Name(name) => IsIdent(name) && !IsKeyword(name)
    case Member(base, member) => WritablePath(base) && IsName(member)
    case Index(base, at) => WritablePath(base) && Writable(at)
    case Not(e) => Writable(e) && !Core(e).Compare?
    case Compare(_, l, r) => Writable(l) && Writable(r) && !Core(l).Compare?
    case Paren(e) => Writable(e)
    case Pad(before, e, after) => Writable(e) && AllSpace(before) && AllSpace(after)
  }

  /** A path that something follows: its head may even be a keyword. */
  ghost predicate WritablePath(e: Expr) {
    match e
    case Name(name) => IsIdent(name)
    case Member(base, member) => WritablePath(base) && IsName(member)
    case Index(base, at) => WritablePath(base) && Writable(at)
    case _ => false
  }

  // ---------------------------------------------------------------- depth over concatenations

  lemma {:induction false} DepthLeft(k: Brackets, a: string, b: string, i: nat)
    requires i <= |a|
    ensures Depth(k, a + b, i) == Depth(k, a, i)
  {
    if i > 0 { DepthLeft(k, a, b, i - 1); }
  }

  lemma {:induction false} DepthRight(k: Brackets, a: string, b: string, j: nat)
    requires j <= |b|
    ensures Depth(k, a + b, |a| + j) == Depth(k, a, |a|) + Depth(k, b, j)
  {
    if j == 0 {
      DepthLeft(k, a, b, |a|);
    } else {
      DepthRight(k, a, b, j - 1);
      assert (a + b)[|a| + j - 1] == b[j - 1];
    }
  }

  lemma {:induction false} DepthPlain(k: Brackets, s: string, i: nat)
    requires NoBrackets(s) && i <= |s|
    ensures Depth(k, s, i) == 0
  {
    if i > 0 { DepthPlain(k, s, i - 1); }
  }

  /** Every bracket is closed, none before it is opened. */
  ghost predicate Balanced(k: Brackets, s: string) {
    Depth(k, s, |s|) == 0 && forall i: nat | i <= |s| :: Depth(k, s, i) >= 0
  }

  ghost predicate AllBalanced(s: string) {
    forall k: Brackets :: Balanced(k, s)
  }

  lemma BalancedPlain(k: Brackets, s: string)
    requires NoBrackets(s)
    ensures Balanced(k, s)
  {
    forall i: nat | i <= |s| ensures Depth(k, s, i) == 0 { DepthPlain(k, s, i); }
  }

  lemma BalancedConcat(k: Brackets, a: string, b: string)
    requires Balanced(k, a) && Balanced(k, b)
    ensures Balanced(k, a + b)
  {
    forall i: nat | i <= |a + b| ensures Depth(k, a + b, i) >= 0 {
      if i <= |a| { DepthLeft(k, a, b, i); } else { DepthRight(k, a, b, i - |a|); }
    }
    DepthRight(k, a, b, |b|);
  }

  ghost predicate OpensWith(o: char, c: char) {
    (o == '(' && c == ')') || (o == '[' && c == ']')
  }

  function Wrap(o: char, t: string, c: char): string { [o] + t + [c] }

  /** Strictly inside the wrapping brackets the depth is one more than within the text. */
  lemma WrapDepth(k: Brackets, o: char, t: string, c: char, i: nat)
    requires i <= |t|
    ensures Depth(k, Wrap(o, t, c), i + 1) == Nest(k, o) + Depth(k, t, i)
  {
    assert Wrap(o, t, c) == [o] + (t + [c]);
    DepthRight(k, [o], t + [c], i);
    DepthLeft(k, t, [c], i);
    assert Depth(k, [o], 1) == Depth(k, [o], 0) + Nest(k, o);
  }

  lemma BalancedWrap(k: Brackets, o: char, t: string, c: char)
    requires OpensWith(o, c) && Balanced(k, t)
    ensures Balanced(k, Wrap(o, t, c))
  {
    var s := Wrap(o, t, c);
    WrapDepth(k, o, t, c, |t|);
    assert Depth(k, s, |s|) == Depth(k, s, |t| + 1) + Nest(k, c);
    forall i: nat | i <= |s| ensures Depth(k, s, i) >= 0 {
      if 0 < i <= |t| + 1 { WrapDepth(k, o, t, c, i - 1); }
    }
  }

  // ---------------------------------------------------------------- texts without a top-level equality

  /** An equality operator outside brackets, wherever the scanner would or would not take it. */
  predicate EqPair(s: string, i: nat) {
    i + 1 < |s| && Depth(Both, s, i) == 0 && EqChar(s[i]) && s[i + 1] == '='
  }

  ghost predicate EqFree(s: string) {
    forall i: nat :: !EqPair(s, i)
  }

  lemma EqPairShift(a: string, t: string, i: nat)
    requires Depth(Both, a, |a|) == 0 && EqPair(t, i)
    ensures EqPair(a + t, |a| + i)
  {
    DepthRight(Both, a, t, i);
    assert (a + t)[|a| + i] == t[i] && (a + t)[|a| + i + 1] == t[i + 1];
  }

  lemma EqPairExtend(t: string, b: string, i: nat)
    requires EqPair(t, i)
    ensures EqPair(t + b, i)
  {
    DepthLeft(Both, t, b, i);
  }

  lemma EqPairSplit(a: string, b: string, i: nat)
    requires Depth(Both, a, |a|) == 0 && EqPair(a + b, i)
    ensures EqPair(a, i) || (i + 1 == |a| && b != "" && EqChar(a[i]) && b[0] == '=') || (i >= |a| && EqPair(b, i - |a|))
  {
    if i < |a| { DepthLeft(Both, a, b, i); } else { DepthRight(Both, a, b, i - |a|); }
  }

  lemma EqFreeConcat(a: string, b: string)
    requires EqFree(a) && EqFree(b) && Depth(Both, a, |a|) == 0
    requires a != "" && b != "" ==> !(EqChar(a[|a| - 1]) && b[0] == '=')
    ensures EqFree(a + b)
  {
    forall i: nat ensures !EqPair(a + b, i) {
      if EqPair(a + b, i) { EqPairSplit(a, b, i); }
    }
  }

  lemma EqFreeWrap(o: char, t: string, c: char)
    requires OpensWith(o, c) && Balanced(Both, t)
    ensures EqFree(Wrap(o, t, c))
  {
    var s := Wrap(o, t, c);
    forall i: nat ensures !EqPair(s, i) {
      if 0 < i < |s| - 1 { WrapDepth(Both, o, t, c, i - 1); }
    }
  }

  lemma EqFreeHasNone(s: string)
    requires EqFree(s)
    ensures TopLevelEquality(s) == None
  {
    forall k: nat | k < |s| ensures !EqualityAt(s, k) {
      assert !EqPair(s, k);
    }
    EqualityIsLeast(s, 0, |s|);
  }

  lemma SpaceIsPlain(a: string)
    requires AllSpace(a)
    ensures NoBrackets(a) && NoEquality(a)
  {}

  /** Dropping whitespace in front, or any tail, keeps a text free of equalities. */
  lemma EqFreeDrops(a: string, t: string, b: string)
    requires AllSpace(a) && EqFree(a + t + b)
    ensures EqFree(t) && EqFree(t + b)
  {
    SpaceIsPlain(a);
    DepthPlain(Both, a, |a|);
    assert a + t + b == a + (t + b);
    forall i: nat ensures !EqPair(t + b, i) {
      if EqPair(t + b, i) { EqPairShift(a, t + b, i); }
    }
    forall i: nat ensures !EqPair(t, i) {
      if EqPair(t, i) { EqPairExtend(t, b, i); }
    }
  }

  lemma EqFreeTrim(s: string)
    requires EqFree(s)
    ensures EqFree(Trim(s))
  {
    var a, b := TrimSplit(s);
    EqFreeDrops(a, Trim(s), b);
  }

  // ---------------------------------------------------------------- the shape of a spelled tree

  ghost predicate Inked(s: string) {
    exists i :: 0 <= i < |s| && !IsSpace(s[i])
  }

  lemma InkSurvives(s: string)
    requires Inked(s)
    ensures Trim(s) != ""
  {
    var a, b := TrimSplit(s);
    var i :| 0 <= i < |s| && !IsSpace(s[i]);
    assert Trim(s) == "" ==> s == a + b;
  }

  /** What every spelled tree looks like from outside: balanced, not blank, and neither starting with `=`
      nor ending with a character an operator could absorb. */
  ghost predicate Shaped(s: string) {
    && Balanced(Round, s) && Balanced(Square, s) && Balanced(Both, s)
    && Inked(s) && s[0] != '=' && !EqChar(s[|s| - 1])
  }

  lemma PlainShaped(s: string)
    requires NoBrackets(s) && NoEquality(s) && Inked(s) && s[0] != '=' && !EqChar(s[|s| - 1])
    ensures Shaped(s) && EqFree(s)
  {
    BalancedPlain(Round, s);
    BalancedPlain(Square, s);
    BalancedPlain(Both, s);
  }

  lemma JoinShaped(a: string, m: string, b: string)
    requires Shaped(b) && NoBrackets(m) && NoBrackets(a) && (a + m != "" ==> (a + m)[0] != '=')
    ensures Shaped(a + m + b)
  {
    var i :| 0 <= i < |b| && !IsSpace(b[i]);
    assert (a + m + b)[|a + m| + i] == b[i];
    forall k: Brackets ensures Balanced(k, b) ==> Balanced(k, a + m + b) {
      BalancedPlain(k, a + m);
      if Balanced(k, b) { BalancedConcat(k, a + m, b); }
    }
  }

  lemma ConcatShaped(a: string, b: string)
    requires Shaped(a) && Shaped(b)
    ensures Shaped(a + b)
  {
    var i :| 0 <= i < |a| && !IsSpace(a[i]);
    assert (a + b)[i] == a[i];
    BalancedConcat(Round, a, b);
    BalancedConcat(Square, a, b);
    BalancedConcat(Both, a, b);
  }

  lemma WrapShaped(o: char, t: string, c: char)
    requires OpensWith(o, c) && Shaped(t)
    ensures Shaped(Wrap(o, t, c)) && EqFree(Wrap(o, t, c))
  {
    var s := Wrap(o, t, c);
    assert s[0] == o && s[|s| - 1] == c;
    BalancedWrap(Round, o, t, c);
    BalancedWrap(Square, o, t, c);
    BalancedWrap(Both, o, t, c);
    EqFreeWrap(o, t, c);
  }

  lemma {:induction false} PartChars(s: string)
    ensures forall i | 0 <= i < PartLen(s) :: IsIdentPart(s[i])
  {
    if s != "" && IsIdentPart(s[0]) { PartChars(s[1..]); }
  }

  lemma {:induction false} DigitChars(s: string)
    ensures forall i | 0 <= i < DigitsLen(s) :: IsDigit(s[i])
  {
    if s != "" && IsDigit(s[0]) { DigitChars(s[1..]); }
  }

  ghost predicate WordChars(s: string) {
    s != "" && forall i | 0 <= i < |s| :: IsIdentPart(s[i]) || s[i] == '-' || s[i] == '.'
  }

  lemma WordShaped(s: string)
    requires WordChars(s)
    ensures Shaped(s) && EqFree(s)
  {
    assert !IsSpace(s[0]);
    PlainShaped(s);
  }

  lemma IdentIsWord(s: string)
    requires IsName(s)
    ensures WordChars(s)
  {
    DigitChars(s);
    PartChars(s[1..]);
  }

  lemma KeywordIsWord(s: string)
    requires IsKeyword(s)
    ensures WordChars(s)
  {}

  lemma NumberIsWord(s: string)
    requires IsNumber(s)
    ensures WordChars(s)
  {
    var t := if s[0] == '-' then s[1..] else s;
    var n := DigitsLen(t);
    DigitChars(t);
    if n < |t| { DigitChars(t[n + 1..]); }
    forall i | 0 <= i < |t| ensures IsIdentPart(t[i]) || t[i] == '.' {
      if i > n { assert t[i] == t[n + 1..][i - n - 1]; }
    }
  }

  lemma QuotedShaped(quote: char, body: string)
    requires (quote == '"' || quote == '\'') && AllBalanced(body) && EqFree(body)
    ensures Shaped(Wrap(quote, body, quote)) && EqFree(Wrap(quote, body, quote))
  {
    var q, s := [quote], Wrap(quote, body, quote);
    assert !IsSpace(s[0]);
    forall k: Brackets ensures Balanced(k, q + body) && Balanced(k, s) && Depth(k, q, 1) == 0 {
      BalancedPlain(k, q);
      BalancedConcat(k, q, body);
      BalancedConcat(k, q + body, q);
    }
    assert EqFree(q);
    EqFreeConcat(q, body);
    EqFreeConcat(q + body, q);
  }

  /** Every writable tree spells a shaped text; if it is not itself an equality, no top-level equality shows. */
  lemma {:induction false} SpellShaped(e: Expr)
    requires Writable(e) || WritablePath(e)
    ensures Shaped(Spell(e))
    ensures !Core(e).Compare? ==> EqFree(Spell(e))
    decreases e
  {
    match e
    case Keyword(word) =>
      KeywordIsWord(word);
      WordShaped(word);
    case Number(text) =>
      NumberIsWord(text);
      WordShaped(text);
    case Quoted(quote, body) => QuotedShaped(quote, body);
    case Name(name) =>
      IdentIsWord(name);
      WordShaped(name);
    case Member(base, member) =>
      SpellShaped(base);
      IdentIsWord(member);
      assert WordChars("." + member);
      WordShaped("." + member);
      ConcatShaped(Spell(base), "." + member);
      EqFreeConcat(Spell(base), "." + member);
    case Index(base, at) =>
      SpellShaped(base);
      SpellShaped(at);
      WrapShaped('[', Spell(at), ']');
      ConcatShaped(Spell(base), Wrap('[', Spell(at), ']'));
      EqFreeConcat(Spell(base), Wrap('[', Spell(at), ']'));
    case Not(e') =>
      SpellShaped(e');
      NotShaped(Spell(e'));
    case Compare(op, l, r) =>
      SpellShaped(l);
      SpellShaped(r);
      CompareShaped(Spell(l), op, Spell(r));
    case Paren(e') =>
      SpellShaped(e');
      WrapShaped('(', Spell(e'), ')');
    case Pad(before, e', after) =>
      SpellShaped(e');
      PadShaped(before, Spell(e'), after);
  }

  lemma NotShaped(t: string)
    requires Shaped(t)
    ensures Shaped("!" + t) && (EqFree(t) ==> EqFree("!" + t))
  {
    JoinShaped("", "!", t);
    assert "" + "!" + t == "!" + t;
    DepthPlain(Both, "!", 1);
    assert EqFree("!");
    if EqFree(t) { EqFreeConcat("!", t); }
  }

  lemma CompareShaped(l: string, op: Op, r: string)
    requires Shaped(l) && Shaped(r)
    ensures Shaped(l + (OpText(op) + r))
  {
    var m := OpText(op);
    BalancedPlain(Round, m);
    BalancedPlain(Square, m);
    BalancedPlain(Both, m);
    BalancedConcat(Round, m, r);
    BalancedConcat(Square, m, r);
    BalancedConcat(Both, m, r);
    BalancedConcat(Round, l, m + r);
    BalancedConcat(Square, l, m + r);
    BalancedConcat(Both, l, m + r);
    var s := l + (m + r);
    assert s[0] == l[0] && s[|s| - 1] == r[|r| - 1];
    var i :| 0 <= i < |l| && !IsSpace(l[i]);
    assert s[i] == l[i];
  }

  lemma PadShaped(a: string, t: string, b: string)
    requires Shaped(t) && AllSpace(a) && AllSpace(b)
    ensures Shaped(a + t + b) && (EqFree(t) ==> EqFree(a + t + b))
  {
    var s := a + t + b;
    var i :| 0 <= i < |t| && !IsSpace(t[i]);
    assert s[|a| + i] == t[i];
    SpaceIsPlain(a);
    SpaceIsPlain(b);
    forall k: Brackets ensures Balanced(k, t) ==> Balanced(k, s) {
      BalancedPlain(k, a);
      BalancedPlain(k, b);
      if Balanced(k, t) {
        BalancedConcat(k, a, t);
        BalancedConcat(k, a + t, b);
      }
    }
    if EqFree(t) {
      DepthPlain(Both, a, |a|);
      EqFreeConcat(a, t);
      BalancedPlain(Both, a);
      BalancedConcat(Both, a, t);
      EqFreeConcat(a + t, b);
    }
  }

  // ---------------------------------------------------------------- how the scanner takes each node apart

  lemma FormTrims(s: string, t: string)
    requires Trim(s) == Trim(t)
    ensures FormOf(s) == FormOf(t)
  {}

  lemma FormOfParen(t: string)
    requires Balanced(Round, t)
    ensures FormOf(Wrap('(', t, ')')) == Group(t)
  {
    var s := Wrap('(', t, ')');
    TrimSolid(s);
    forall i | 0 <= i < |s| - 1 && s[i] == ')' ensures Depth(Round, s, i + 1) != 0 {
      WrapDepth(Round, '(', t, ')', i);
    }
    assert s[1..|s| - 1] == t;
  }

  lemma TrimNot(t: string) returns (u: string)
    requires Inked(t)
    ensures Trim("!" + t) == "!" + u && Trim(u) == Trim(t)
  {
    InkSurvives(t);
    var a, b := TrimSplit(t);
    u := a + Trim(t);
    assert "!" + t == "" + ("!" + u) + b;
    assert !IsSpace(("!" + u)[|u|]);
    TrimUnique("", "!" + u, b);
    assert u == u + "";
    TrimPad(a, Trim(t), "");
    TrimIdempotent(t);
  }

  lemma FormOfNot(t: string)
    requires Shaped(t) && EqFree(t)
    ensures FormOf("!" + t).Negation? && Trim(FormOf("!" + t).inner) == Trim(t)
  {
    var u := TrimNot(t);
    NotShaped(t);
    EqFreeTrim("!" + t);
    EqFreeHasNone("!" + u);
    assert ("!" + u)[1..] == u;
  }

  /** A text that opens with a parenthesis and balances closes that level somewhere. */
  lemma {:induction false} ClosesSomewhere(s: string, n: nat) returns (i: nat)
    requires 0 < n <= |s| && s[0] == '(' && Depth(Round, s, n) == 0
    requires forall j: nat | j <= |s| :: Depth(Round, s, j) >= 0
    ensures i < n && s[i] == ')' && Depth(Round, s, i + 1) == 0
    decreases n
  {
    if s[n - 1] == ')' {
      i := n - 1;
    } else {
      assert Depth(Round, s, n - 1) >= 0;
      assert Depth(Round, s, 0) == 0;
      i := ClosesSomewhere(s, n - 1);
    }
  }

  lemma TextBeforeKeepsOpen(l: string, rest: string)
    requires Balanced(Round, l) && l != "" && rest != "" && l[0] == '('
    ensures !WrapsWhole(l + rest)
  {
    var i := ClosesSomewhere(l, |l|);
    DepthLeft(Round, l, rest, i + 1);
    assert (l + rest)[i] == ')';
  }

  /** What FindsOperator needs of a left operand. */
  ghost predicate LeftReady(l: string) {
    && l != "" && !IsSpace(l[0]) && !EqChar(l[|l| - 1])
    && EqFree(l) && Balanced(Round, l) && Depth(Both, l, |l|) == 0
  }

  ghost predicate RightReady(r: string) {
    r != "" && r[0] != '=' && !IsSpace(r[|r| - 1])
  }

  lemma NoEarlierOperator(l: string, t: string, k: nat)
    requires LeftReady(l) && k < |l|
    ensures !EqualityAt(l + t, k)
  {
    if EqPair(l + t, k) { EqPairSplit(l, t, k); }
  }

  lemma OperatorHere(l: string, op: Op, r: string)
    requires LeftReady(l) && RightReady(r)
    ensures EqualityAt(l + (OpText(op) + r), |l|) && OpAt(l + (OpText(op) + r), |l|) == op
  {
    var t := OpText(op) + r;
    var s := l + t;
    DepthLeft(Both, l, t, |l|);
    assert !IsSpace(s[0]);
    assert t[0] == OpText(op)[0] && t[1] == OpText(op)[1];
    assert t[2] == (if |OpText(op)| == 3 then OpText(op)[2] else r[0]);
    assert s[|l|] == t[0] && s[|l| + 1] == t[1] && s[|l| + 2] == t[2];
  }

  /** The scanner finds the operator of an equality exactly between its operands. */
  lemma FindsOperator(l: string, op: Op, r: string)
    requires LeftReady(l) && RightReady(r)
    ensures TopLevelEquality(l + (OpText(op) + r)) == Some(Found(|l|, op))
  {
    var t := OpText(op) + r;
    forall k: nat | k < |l| ensures !EqualityAt(l + t, k) {
      NoEarlierOperator(l, t, k);
    }
    OperatorHere(l, op, r);
    EqualityIsLeast(l + t, 0, |l|);
  }

  lemma FormOfReady(l: string, op: Op, r: string)
    requires LeftReady(l) && RightReady(r)
    ensures FormOf(l + (OpText(op) + r)) == Equality(l, op, r)
  {
    var m := OpText(op);
    var s := l + (m + r);
    assert s[0] == l[0] && s[|s| - 1] == r[|r| - 1];
    TrimSolid(s);
    FindsOperator(l, op, r);
    if l[0] == '(' { TextBeforeKeepsOpen(l, m + r); }
    assert s[..|l|] == l && s[|l| + |m|..] == r;
  }

  lemma BalancedDrops(k: Brackets, a: string, t: string)
    requires AllSpace(a) && Balanced(k, a + t)
    ensures Balanced(k, t)
  {
    SpaceIsPlain(a);
    DepthPlain(k, a, |a|);
    forall i: nat | i <= |t| ensures Depth(k, t, i) == Depth(k, a + t, |a| + i) {
      DepthRight(k, a, t, i);
    }
  }

  /** A shaped text with the whitespace in front of it dropped, ready to be a left operand. */
  lemma LeftOperand(l: string) returns (a: string, l': string)
    requires Shaped(l) && EqFree(l)
    ensures l == a + l' && AllSpace(a) && Trim(l') == Trim(l) && LeftReady(l')
  {
    InkSurvives(l);
    var b;
    a, b := TrimSplit(l);
    l' := Trim(l) + b;
    assert l == a + l' == a + l' + "";
    assert l'[|l'| - 1] == l[|l| - 1];
    BalancedDrops(Round, a, l');
    BalancedDrops(Both, a, l');
    EqFreeDrops(a, Trim(l), b);
    TrimPad(a, l', "");
  }

  lemma RightOperand(r: string) returns (r': string, d: string)
    requires Shaped(r)
    ensures r == r' + d && AllSpace(d) && Trim(r') == Trim(r) && RightReady(r')
  {
    InkSurvives(r);
    var c;
    c, d := TrimSplit(r);
    r' := c + Trim(r);
    RightEnds(c, Trim(r), d);
    assert "" + r' + d == r' + d;
    TrimPad("", r', d);
  }

  lemma RightEnds(c: string, t: string, d: string)
    requires t != "" && Solid(t) && (c + t + d)[0] != '='
    ensures RightReady(c + t)
  {
    assert (c + t)[0] == (c + t + d)[0];
  }

  lemma FormOfCompare(l: string, op: Op, r: string)
    requires Shaped(l) && EqFree(l) && Shaped(r)
    ensures var f := FormOf(l + (OpText(op) + r));
            f.Equality? && f.op == op && Trim(f.l) == Trim(l) && Trim(f.r) == Trim(r)
  {
    var a, l' := LeftOperand(l);
    var r', d := RightOperand(r);
    FormOfReady(l', op, r');
    FormOfPadded(a, l', OpText(op), r', d);
  }

  lemma FormOfPadded(a: string, l: string, m: string, r: string, d: string)
    requires AllSpace(a) && AllSpace(d)
    ensures FormOf((a + l) + (m + (r + d))) == FormOf(l + (m + r))
  {
    assert (a + l) + (m + (r + d)) == a + (l + (m + r)) + d;
    TrimPad(a, l + (m + r), d);
  }

  lemma FormOfAtom(s: string)
    requires s != "" && Solid(s) && EqFree(s) && s[0] != '(' && s[0] != '!'
    ensures FormOf(s) == Atom(s)
  {
    TrimSolid(s);
    EqFreeHasNone(s);
  }

  lemma ResolvedTrims(h: Host, vals: Value, s: string, t: string)
    requires Trim(s) == Trim(t)
    ensures Resolved(h, vals, s) == Resolved(h, vals, t)
  {
    FormTrims(s, t);
  }

  // ---------------------------------------------------------------- paths

  ghost predicate Stops(rest: string) {
    rest == "" || rest[0] == '.' || rest[0] == '['
  }

  lemma {:induction false} PartLenStops(s: string, rest: string)
    requires PartLen(s) == |s| && Stops(rest)
    ensures PartLen(s + rest) == |s|
  {
    if s == "" {
      assert s + rest == rest;
    } else {
      assert (s + rest)[1..] == s[1..] + rest;
      PartLenStops(s[1..], rest);
    }
  }

  lemma {:induction false} DigitsLenStops(s: string, rest: string)
    requires DigitsLen(s) == |s| && Stops(rest)
    ensures DigitsLen(s + rest) == |s|
  {
    if s == "" {
      assert s + rest == rest;
    } else {
      assert (s + rest)[1..] == s[1..] + rest;
      DigitsLenStops(s[1..], rest);
    }
  }

  lemma IdentLenStops(s: string, rest: string)
    requires IsIdent(s) && Stops(rest)
    ensures IdentLen(s + rest) == |s|
  {
    assert (s + rest)[1..] == s[1..] + rest;
    PartLenStops(s[1..], rest);
  }

  lemma NameLenStops(s: string, rest: string)
    requires IsName(s) && Stops(rest)
    ensures NameLen(s + rest) == |s|
  {
    if IdentLen(s) == |s| { IdentLenStops(s, rest); } else { DigitsLenStops(s, rest); }
  }

  lemma {:induction false} CloseSkips(t: string, rest: string, j: nat)
    requires Balanced(Square, t) && j <= |t|
    ensures CloseFrom(Wrap('[', t, ']') + rest, 1, 1)
            == CloseFrom(Wrap('[', t, ']') + rest, 1 + j, 1 + Depth(Square, t, j))
  {
    var s := Wrap('[', t, ']') + rest;
    if j > 0 {
      CloseSkips(t, rest, j - 1);
      assert s[j] == t[j - 1];
      assert Depth(Square, t, j) >= 0;
    }
  }

  lemma ClosesAtEnd(t: string, rest: string)
    requires Balanced(Square, t)
    ensures CloseFrom(Wrap('[', t, ']') + rest, 1, 1) == Some(1 + |t|)
  {
    CloseSkips(t, rest, |t|);
    assert (Wrap('[', t, ']') + rest)[1 + |t|] == ']';
  }

  lemma PartIsMember(name: string, rest: string)
    requires IsName(name) && Stops(rest)
    ensures PartOf("." + name + rest) == Dotted(name, rest)
  {
    var s := "." + name + rest;
    assert s[1..] == name + rest;
    NameLenStops(name, rest);
    assert s[1..1 + |name|] == name && s[1 + |name|..] == rest;
  }

  lemma PartIsIndex(t: string, rest: string)
    requires Balanced(Square, t)
    ensures PartOf(Wrap('[', t, ']') + rest) == Bracketed(t, rest)
  {
    var s := Wrap('[', t, ']') + rest;
    ClosesAtEnd(t, rest);
    assert s[1..1 + |t|] == t && s[2 + |t|..] == rest;
  }

  lemma WalkMember(h: Host, vals: Value, cur: Value, name: string, rest: string)
    requires IsName(name) && Stops(rest)
    ensures Walk(h, vals, cur, "." + name + rest) == Walk(h, vals, ReadMember(h, cur, Str(name)), rest)
  {
    PartIsMember(name, rest);
  }

  lemma WalkIndex(h: Host, vals: Value, cur: Value, t: string, rest: string)
    requires Balanced(Square, t)
    ensures Walk(h, vals, cur, Wrap('[', t, ']') + rest) == Walk(h, vals, ReadMember(h, cur, Resolved(h, vals, t)), rest)
  {
    PartIsIndex(t, rest);
  }

  lemma {:induction false} PathEdges(e: Expr)
    requires WritablePath(e)
    ensures Spell(e) != "" && IsIdentStart(Spell(e)[0])
    ensures IsIdentPart(Spell(e)[|Spell(e)| - 1]) || Spell(e)[|Spell(e)| - 1] == ']'
  {
    match e
    case Name(name) => PartChars(name[1..]);
    case Member(base, member) =>
      PathEdges(base);
      PartChars(member[1..]);
      DigitChars(member);
    case Index(base, at) => PathEdges(base);
    case _ =>
  }

  lemma PathMark(e: Expr) returns (i: nat)
    requires WritablePath(e) && !e.Name?
    ensures i < |Spell(e)| && !IsIdentPart(Spell(e)[i])
  {
    i := |Spell(e.base)|;
    assert Spell(e)[i] == '.' || Spell(e)[i] == '[';
  }

  lemma NotKeyword(s: string, i: nat)
    requires i < |s| && !IsIdentPart(s[i])
    ensures !IsKeyword(s)
  {}

  lemma WordNoLiteral(h: Host, s: string)
    requires s != "" && IsIdentStart(s[0]) && !IsKeyword(s)
    ensures Literal(h, s) == None
  {}

  lemma PathNotKeyword(e: Expr)
    requires WritablePath(e) && Writable(e)
    ensures !IsKeyword(Spell(e))
  {
    if !e.Name? {
      var i := PathMark(e);
      NotKeyword(Spell(e), i);
    }
  }

  // ---------------------------------------------------------------- the theorems

  lemma HeadMeans(h: Host, vals: Value, name: string, rest: string)
    requires IsIdent(name) && Stops(rest)
    ensures PathValue(h, vals, name + rest) == Walk(h, vals, ReadMember(h, vals, Str(name)), rest)
  {
    IdentLenStops(name, rest);
    assert (name + rest)[..|name|] == name && (name + rest)[|name|..] == rest;
  }

  /** Walking the text of a path, with more path after it, reads the path's value and goes on from there. */
  lemma {:induction false} PathMeansItsTree(h: Host, vals: Value, e: Expr, rest: string)
    requires WritablePath(e) && Stops(rest)
    ensures PathValue(h, vals, Spell(e) + rest) == Walk(h, vals, Meaning(h, vals, e), rest)
    decreases e, 0
  {
    match e
    case Name(name) => HeadMeans(h, vals, name, rest);
    case Member(base, member) =>
      PathMeansItsTree(h, vals, base, "." + member + rest);
      MemberMeans(h, vals, base, member, rest);
    case Index(base, at) =>
      SpellShaped(at);
      PathMeansItsTree(h, vals, base, Wrap('[', Spell(at), ']') + rest);
      TextMeansItsTree(h, vals, at);
      IndexMeans(h, vals, base, at, rest);
    case _ =>
  }

  lemma RegroupText(a: string, b: string, c: string)
    ensures (a + b) + c == a + (b + c)
  {}

  /** One part of a path, by its text: the walk goes on from the value it leads to. */
  lemma GoesOn(h: Host, vals: Value, s: string, t: string, rest: string, cur: Value, next: Value)
    requires PathValue(h, vals, s + (t + rest)) == Walk(h, vals, cur, t + rest)
    requires Walk(h, vals, cur, t + rest) == Walk(h, vals, next, rest)
    ensures PathValue(h, vals, (s + t) + rest) == Walk(h, vals, next, rest)
  {
    RegroupText(s, t, rest);
  }

  lemma MemberMeans(h: Host, vals: Value, base: Expr, member: string, rest: string)
    requires IsName(member) && Stops(rest)
    requires var more := "." + member + rest;
             PathValue(h, vals, Spell(base) + more) == Walk(h, vals, Meaning(h, vals, base), more)
    ensures var e := Member(base, member);
            PathValue(h, vals, Spell(e) + rest) == Walk(h, vals, Meaning(h, vals, e), rest)
  {
    var cur := Meaning(h, vals, base);
    WalkMember(h, vals, cur, member, rest);
    GoesOn(h, vals, Spell(base), "." + member, rest, cur, ReadMember(h, cur, Str(member)));
  }

  lemma IndexMeans(h: Host, vals: Value, base: Expr, at: Expr, rest: string)
    requires Balanced(Square, Spell(at)) && Resolved(h, vals, Spell(at)) == Meaning(h, vals, at)
    requires var more := Wrap('[', Spell(at), ']') + rest;
             PathValue(h, vals, Spell(base) + more) == Walk(h, vals, Meaning(h, vals, base), more)
    ensures var e := Index(base, at);
            PathValue(h, vals, Spell(e) + rest) == Walk(h, vals, Meaning(h, vals, e), rest)
  {
    var cur := Meaning(h, vals, base);
    WalkIndex(h, vals, cur, Spell(at), rest);
    GoesOn(h, vals, Spell(base), Wrap('[', Spell(at), ']'), rest, cur, ReadMember(h, cur, Meaning(h, vals, at)));
  }

  /** Interpreter correctness: the text of a writable tree resolves to the value of the tree, for every
      tree, every binding of the names and whatever the host's operators compute. */
  lemma {:induction false} TextMeansItsTree(h: Host, vals: Value, e: Expr)
    requires Writable(e)
    ensures Resolved(h, vals, Spell(e)) == Meaning(h, vals, e)
    decreases e, 2
  {
    match e
    case Keyword(word) =>
      KeywordIsAtom(word);
      LiteralMeans(h, vals, word);
    case Number(text) =>
      NumberIsAtom(text);
      NumberIsLiteral(h, text);
      LiteralMeans(h, vals, text);
    case Quoted(quote, body) =>
      SpellShaped(e);
      QuotedMeans(h, vals, quote, body);
    case Name(_) => PathTextMeans(h, vals, e);
    case Member(_, _) => PathTextMeans(h, vals, e);
    case Index(_, _) => PathTextMeans(h, vals, e);
    case Not(e') =>
      NotMeans(h, vals, e');
      TextMeansItsTree(h, vals, e');
    case Compare(op, l, r) =>
      CompareMeans(h, vals, l, op, r);
      TextMeansItsTree(h, vals, l);
      TextMeansItsTree(h, vals, r);
    case Paren(e') =>
      SpellShaped(e');
      FormOfParen(Spell(e'));
      GroupMeans(h, vals, Spell(e), Spell(e'));
      TextMeansItsTree(h, vals, e');
    case Pad(before, e', after) =>
      TextMeansItsTree(h, vals, e');
      TrimPad(before, Spell(e'), after);
      ResolvedTrims(h, vals, Spell(e), Spell(e'));
  }

  lemma GroupMeans(h: Host, vals: Value, s: string, inner: string)
    requires FormOf(s) == Group(inner)
    ensures Resolved(h, vals, s) == Resolved(h, vals, inner)
  {}

  lemma NotMeans(h: Host, vals: Value, e: Expr)
    requires Writable(Not(e))
    ensures Resolved(h, vals, Spell(Not(e))) == h.negate(Resolved(h, vals, Spell(e)))
  {
    SpellShaped(e);
    FormOfNot(Spell(e));
    ResolvedTrims(h, vals, FormOf("!" + Spell(e)).inner, Spell(e));
  }

  lemma CompareMeans(h: Host, vals: Value, l: Expr, op: Op, r: Expr)
    requires Writable(Compare(op, l, r))
    ensures Resolved(h, vals, Spell(Compare(op, l, r))) == h.compare(op, Resolved(h, vals, Spell(l)), Resolved(h, vals, Spell(r)))
  {
    SpellShaped(l);
    SpellShaped(r);
    FormOfCompare(Spell(l), op, Spell(r));
    var f := FormOf(Spell(l) + (OpText(op) + Spell(r)));
    ResolvedTrims(h, vals, f.l, Spell(l));
    ResolvedTrims(h, vals, f.r, Spell(r));
  }

  lemma KeywordIsAtom(word: string)
    requires IsKeyword(word)
    ensures FormOf(word) == Atom(word)
  {
    KeywordIsWord(word);
    WordShaped(word);
    WordIsAtom(word);
  }

  /** A text that scans as one atom and reads as a literal. */
  lemma LiteralMeans(h: Host, vals: Value, s: string)
    requires FormOf(s) == Atom(s) && Literal(h, s).Some?
    ensures Resolved(h, vals, s) == Literal(h, s).value
  {}

  lemma NumberIsAtom(text: string)
    requires IsNumber(text)
    ensures FormOf(text) == Atom(text)
  {
    NumberIsWord(text);
    WordShaped(text);
    WordIsAtom(text);
  }

  lemma WordIsAtom(s: string)
    requires WordChars(s) && EqFree(s)
    ensures FormOf(s) == Atom(s)
  {
    assert Solid(s);
    FormOfAtom(s);
  }

  lemma NumberIsLiteral(h: Host, text: string)
    requires IsNumber(text)
    ensures Literal(h, text) == Some(h.number(text))
  {
    assert text[0] == '-' || IsDigit(text[0]);
  }

  lemma QuotedMeans(h: Host, vals: Value, quote: char, body: string)
    requires (quote == '"' || quote == '\'') && EqFree(Wrap(quote, body, quote))
    ensures Resolved(h, vals, Wrap(quote, body, quote)) == Str(body)
  {
    var s := Wrap(quote, body, quote);
    FormOfAtom(s);
    QuotedLiteral(h, quote, body);
    LiteralMeans(h, vals, s);
  }

  lemma QuotedLiteral(h: Host, quote: char, body: string)
    requires quote == '"' || quote == '\''
    ensures Literal(h, Wrap(quote, body, quote)) == Some(Str(body))
  {
    var s := Wrap(quote, body, quote);
    assert s[0] == quote && s[|s| - 1] == quote && s[1..|s| - 1] == body;
  }

  lemma PathIsAtom(e: Expr)
    requires Writable(e) && WritablePath(e)
    ensures FormOf(Spell(e)) == Atom(Spell(e))
  {
    SpellShaped(e);
    PathEdges(e);
    PathTextIsAtom(Spell(e));
  }

  lemma PathTextIsAtom(s: string)
    requires s != "" && IsIdentStart(s[0]) && EqFree(s) && (IsIdentPart(s[|s| - 1]) || s[|s| - 1] == ']')
    ensures FormOf(s) == Atom(s)
  {
    FormOfAtom(s);
  }

  lemma PathIsNoLiteral(h: Host, e: Expr)
    requires Writable(e) && WritablePath(e)
    ensures Literal(h, Spell(e)) == None
  {
    PathEdges(e);
    PathNotKeyword(e);
    WordNoLiteral(h, Spell(e));
  }

  lemma PathTextMeans(h: Host, vals: Value, e: Expr)
    requires Writable(e) && WritablePath(e)
    ensures Resolved(h, vals, Spell(e)) == Meaning(h, vals, e)
    decreases e, 1
  {
    PathIsAtom(e);
    PathIsNoLiteral(h, e);
    PathMeansItsTree(h, vals, e, "");
    assert Spell(e) + "" == Spell(e);
  }

  /** Where string literals break: the scanner does not know quotes, so a literal resolves to its own body
      exactly when no top-level equality shows in its text. */
  lemma StringLiteralExactly(h: JsHost, vals: Value, quote: char, body: string)
    requires quote == '"' || quote == '\''
    ensures Resolved(h, vals, Wrap(quote, body, quote)) == Str(body)
            <==> TopLevelEquality(Wrap(quote, body, quote)).None?
  {
    var s := Wrap(quote, body, quote);
    FormOfQuoted(quote, body);
    if TopLevelEquality(s).None? {
      QuotedLiteral(h, quote, body);
      LiteralMeans(h, vals, s);
    }
  }

  lemma FormOfQuoted(quote: char, body: string)
    requires quote == '"' || quote == '\''
    ensures var s := Wrap(quote, body, quote);
            if TopLevelEquality(s).None? then FormOf(s) == Atom(s) else FormOf(s).Equality?
  {
    TrimSolid(Wrap(quote, body, quote));
  }

  /** `'a==b'` is read as a comparison of two broken halves. */
  lemma StringLiteralCanSplit(h: JsHost, vals: Value)
    ensures Resolved(h, vals, "'a==b'").Bool?
  {
    assert "'a" + (OpText(LooseEq) + "b'") == "'a==b'";
    BalancedPlain(Round, "'a");
    DepthPlain(Both, "'a", 2);
    assert LeftReady("'a") && RightReady("b'");
    FormOfReady("'a", LooseEq, "b'");
    SplitIsBool(h, vals, "'a==b'");
  }

  lemma SplitIsBool(h: JsHost, vals: Value, s: string)
    requires FormOf(s).Equality?
    ensures Resolved(h, vals, s).Bool?
  {}

  /** Chained equalities read right to left: `a==b==c` is `a==(b==c)`, where JavaScript reads `(a==b)==c`. */
  lemma ChainedEqualityIsRightAssociative(h: Host, vals: Value, op1: Op, op2: Op, a: Expr, b: Expr, c: Expr)
    requires Writable(a) && Writable(b) && Writable(c) && !Core(a).Compare? && !Core(b).Compare?
    ensures Resolved(h, vals, Spell(a) + (OpText(op1) + (Spell(b) + (OpText(op2) + Spell(c)))))
            == h.compare(op1, Meaning(h, vals, a), h.compare(op2, Meaning(h, vals, b), Meaning(h, vals, c)))
  {
    TextMeansItsTree(h, vals, Compare(op1, a, Compare(op2, b, c)));
  }
}
