/** The words, names, numbers and operators of an expression, spelled out character by character: what the scanner's
    own classes and tables come to. */
module ExprSyntax {
  import opened Options
  import opened Text
  import opened ExprResolver
  import opened ExprTrees

  ghost predicate AllIn(s: string, chars: set<char>) {
    forall i | 0 <= i < |s| :: s[i] in chars
  }

  const DIGITS: set<char> := {'0', '1', '2', '3', '4', '5', '6', '7', '8', '9'}

  ghost predicate Digits(s: string) {
    s != "" && AllIn(s, DIGITS)
  }

  ghost predicate Letter(c: char) {
    'a' <= Lower(c) <= 'z' || c == '_' || c == '$'
  }

  /** `[A-Za-z_$][A-Za-z0-9_$]*` */
  ghost predicate SpellsName(s: string) {
    s != "" && Letter(s[0]) && forall i | 0 <= i < |s| :: Letter(s[i]) || s[i] in DIGITS
  }

  /** `-?\d+(\.\d+)?` */
  ghost predicate SpellsNumber(s: string) {
    exists sign, whole, fraction ::
      SignedNumber(s, sign, whole, fraction)
  }

  ghost predicate SignedNumber(s: string, sign: string, whole: string, fraction: string) {
    && sign in {"", "-"} && Digits(whole)
    && (s == sign + whole || (s == sign + whole + "." + fraction && Digits(fraction)))
  }

  // ---------------------------------------------------------------- keywords and names

  /** The four words, whatever the whitespace around them. */
  lemma KeywordsResolve(h: Host, vals: Value, src: string)
    ensures Trim(src) == "true" ==> Resolved(h, vals, src) == Bool(true)
    ensures Trim(src) == "false" ==> Resolved(h, vals, src) == Bool(false)
    ensures Trim(src) == "null" ==> Resolved(h, vals, src) == Null
    ensures Trim(src) == "undefined" ==> Resolved(h, vals, src) == Undefined
  {
    if IsKeyword(Trim(src)) {
      TextMeansItsTree(h, vals, Keyword(Trim(src)));
      TrimIdempotent(src);
      ResolvedTrims(h, vals, src, Trim(src));
    }
  }

  lemma {:induction false} PartLenIff(s: string)
    ensures PartLen(s) == |s| <==> forall i | 0 <= i < |s| :: Letter(s[i]) || s[i] in DIGITS
  {
    if s != "" {
      PartLenIff(s[1..]);
      assert s == [s[0]] + s[1..];
    }
  }

  lemma NameIff(s: string)
    ensures SpellsName(s) <==> IsIdent(s)
  {
    if s != "" {
      PartLenIff(s[1..]);
      assert s == [s[0]] + s[1..];
    }
  }

  /** Every other name reads the binding, and nothing from a binding that is null or undefined. */
  lemma NamesResolve(h: Host, vals: Value, name: string)
    requires SpellsName(name) && name !in {"true", "false", "null", "undefined"}
    ensures Resolved(h, vals, name) == if vals.Undefined? || vals.Null? then Undefined else h.get(vals, Str(name))
  {
    NameIff(name);
    TextMeansItsTree(h, vals, Name(name));
  }

  // ---------------------------------------------------------------- numbers

  /** A run of digits is taken whole, and no further. */
  lemma {:induction false} DigitsLenIs(whole: string, rest: string)
    requires AllIn(whole, DIGITS) && (rest != "" ==> rest[0] !in DIGITS)
    ensures DigitsLen(whole + rest) == |whole|
  {
    if whole == "" {
      assert whole + rest == rest;
    } else {
      assert (whole + rest)[1..] == whole[1..] + rest;
      DigitsLenIs(whole[1..], rest);
    }
  }

  lemma {:induction false} DigitsTaken(s: string)
    ensures AllIn(s[..DigitsLen(s)], DIGITS)
  {
    if s != "" && IsDigit(s[0]) {
      DigitsTaken(s[1..]);
      assert s[..DigitsLen(s)] == [s[0]] + s[1..][..DigitsLen(s[1..])];
    }
  }

  function Unsigned(s: string): string {
    if s != "" && s[0] == '-' then s[1..] else s
  }

  lemma WholeIsNumber(s: string, sign: string, whole: string)
    requires sign in {"", "-"} && Digits(whole) && s == sign + whole
    ensures IsNumber(s)
  {
    assert Unsigned(s) == whole == whole + "";
    DigitsLenIs(whole, "");
  }

  lemma FractionIsNumber(s: string, sign: string, whole: string, fraction: string)
    requires sign in {"", "-"} && Digits(whole) && Digits(fraction) && s == sign + whole + "." + fraction
    ensures IsNumber(s)
  {
    var t := whole + ("." + fraction);
    assert Unsigned(s) == t;
    DigitsLenIs(whole, "." + fraction);
    assert t[|whole| + 1..] == fraction == fraction + "";
    DigitsLenIs(fraction, "");
  }

  lemma NumberSplits(s: string)
    requires IsNumber(s)
    ensures SpellsNumber(s)
  {
    var t := Unsigned(s);
    var sign, n := if t == s then "" else "-", DigitsLen(t);
    DigitsTaken(t);
    if n == |t| {
      assert t[..n] == t && s == sign + t;
      assert SignedNumber(s, sign, t, "");
    } else {
      var fraction := t[n + 1..];
      DigitsTaken(fraction);
      assert fraction[..|fraction|] == fraction && t == t[..n] + "." + fraction;
      assert s == sign + t[..n] + "." + fraction;
      assert SignedNumber(s, sign, t[..n], fraction);
    }
  }

  lemma NumberIff(s: string)
    ensures IsNumber(s) <==> SpellsNumber(s)
  {
    if IsNumber(s) { NumberSplits(s); }
    if sign, whole, fraction :| SignedNumber(s, sign, whole, fraction) {
      if s == sign + whole { WholeIsNumber(s, sign, whole); } else { FractionIsNumber(s, sign, whole, fraction); }
    }
  }

  /** A text is read as a number when it is spelled as one: an optional minus, digits, and maybe a point and more digits. */
  lemma NumbersResolve(h: Host, vals: Value, text: string)
    requires SpellsNumber(text)
    ensures Resolved(h, vals, text) == h.number(text)
  {
    NumberIff(text);
    TextMeansItsTree(h, vals, Number(text));
  }

  // ---------------------------------------------------------------- operators

  /** The four equalities by their own spelling. */
  lemma OperatorsResolve(h: Host, vals: Value, l: Expr, op: Op, symbol: string, r: Expr)
    requires Writable(l) && Writable(r) && !Core(l).Compare?
    requires (op, symbol) in [(StrictEq, "==="), (StrictNe, "!=="), (LooseEq, "=="), (LooseNe, "!=")]
    ensures Resolved(h, vals, Spell(l) + (symbol + Spell(r))) == h.compare(op, Meaning(h, vals, l), Meaning(h, vals, r))
  {
    assert symbol == OpText(op);
    TextMeansItsTree(h, vals, Compare(op, l, r));
  }

  /** The comparison a text is taken for: its operator stands at that place, is no tail of another one, has something before
      it and is inside no bracket. */
  lemma FoundEqualityIs(s: string)
    requires TopLevelEquality(s).Some?
    ensures var f := TopLevelEquality(s).value;
            && 0 < f.index && s[f.index..][..|OpText(f.op)|] == OpText(f.op)
            && s[f.index - 1] !in {'=', '!'} && Trim(s[..f.index]) != ""
            && Depth(Both, s, f.index) == 0
  {
    var f := TopLevelEquality(s).value;
    TrimsBlank(s, f.index);
  }
}
