/** Chained equalities: which tree the resolver reads a chain as, and exactly which trees keep their meaning. */
module ExprChains {
  import opened Options
  import opened Text
  import opened ExprResolver
  import opened ExprTrees

  // ---------------------------------------------------------------- trees with chains

  /** Writable, but for the rule that the left operand of an equality is no bare equality. */
  ghost predicate Loose(e: Expr) {
    match e
    case Member(base, member) => LoosePath(base) && IsName(member)
    case Index(base, at) => LoosePath(base) && Loose(at)
    case Not(e) => Loose(e) && !Core(e).Compare?
    case Compare(_, l, r) => Loose(l) && Loose(r)
    case Paren(e) => Loose(e)
    case Pad(before, e, after) => Loose(e) && AllSpace(before) && AllSpace(after)
    case _ => Writable(e)
  }

  ghost predicate LoosePath(e: Expr) {
    match e
    case Name(name) => IsIdent(name)
    case Member(base, member) => LoosePath(base) && IsName(member)
    case Index(base, at) => LoosePath(base) && Loose(at)
    case _ => false
  }

  /** Some equality has an unparenthesised equality as its left operand. */
  predicate HasChain(e: Expr) {
    match e
    case Member(base, _) => HasChain(base)
    case Index(base, at) => HasChain(base) || HasChain(at)
    case Not(e) => HasChain(e)
    case Compare(_, l, r) => Core(l).Compare? || HasChain(l) || HasChain(r)
    case Paren(e) => HasChain(e)
    case Pad(_, e, _) => HasChain(e)
    case _ => false
  }

  lemma {:induction false} WritableIsUnchained(e: Expr)
    ensures Loose(e) ==> (Writable(e) <==> !HasChain(e))
    ensures LoosePath(e) ==> (WritablePath(e) <==> !HasChain(e))
  {
    match e
    case Member(base, _) => WritableIsUnchained(base);
    case Index(base, at) => WritableIsUnchained(base); WritableIsUnchained(at);
    case Not(e') => WritableIsUnchained(e');
    case Compare(_, l, r) => WritableIsUnchained(l); WritableIsUnchained(r);
    case Paren(e') => WritableIsUnchained(e');
    case Pad(_, e', _) => WritableIsUnchained(e');
    case _ =>
  }

  // ---------------------------------------------------------------- the tree the resolver reads

  /** The tree spelled as l, whitespace, the operator, r: a chain hangs to the right of its first operator. */
  function Attach(l: Expr, y: string, op: Op, r: Expr): Expr {
    match l
    case Compare(op1, a, b) => Compare(op1, a, Attach(b, y, op, r))
    case Pad(before, e, after) =>
      if Core(e).Compare? then Pad(before, Attach(e, after + y, op, r), "") else Compare(op, Padded(l, y), r)
    case _ => Compare(op, Padded(l, y), r)
  }

  function Padded(e: Expr, y: string): Expr {
    if y == "" then e else Pad("", e, y)
  }

  function Reread(e: Expr): Expr {
    match e
    case Member(base, member) => Member(Reread(base), member)
    case Index(base, at) => Index(Reread(base), Reread(at))
    case Not(e) => Not(Reread(e))
    case Compare(op, l, r) => Attach(Reread(l), "", op, Reread(r))
    case Paren(e) => Paren(Reread(e))
    case Pad(before, e, after) => Pad(before, Reread(e), after)
    case _ => e
  }

  lemma CompareSpells(op: Op, a: Expr, b: Expr, x: Expr, t: string)
    requires Spell(x) == Spell(b) + t
    ensures Spell(Compare(op, a, x)) == Spell(Compare(op, a, b)) + t
  {
    RegroupRight(Spell(a), OpText(op), Spell(b), t);
  }

  lemma RegroupRight(a: string, m: string, b: string, t: string)
    ensures a + (m + (b + t)) == (a + (m + b)) + t
  {}

  lemma PadSpells(before: string, e: Expr, after: string, x: Expr, y: string, m: string)
    requires Spell(x) == Spell(e) + ((after + y) + m)
    ensures Spell(Pad(before, x, "")) == Spell(Pad(before, e, after)) + (y + m)
  {
    RegroupPad(before, Spell(e), after, y, m);
  }

  lemma RegroupPad(before: string, s: string, after: string, y: string, m: string)
    ensures before + (s + ((after + y) + m)) + "" == (before + s + after) + (y + m)
  {}

  lemma {:induction false} AttachSpells(l: Expr, y: string, op: Op, r: Expr)
    ensures Spell(Attach(l, y, op, r)) == Spell(l) + (y + (OpText(op) + Spell(r)))
  {
    var m := OpText(op) + Spell(r);
    match l {
      case Compare(op1, a, b) =>
        AttachSpells(b, y, op, r);
        CompareSpells(op1, a, b, Attach(b, y, op, r), y + m);
      case Pad(before, e, after) =>
        if Core(e).Compare? {
          AttachSpells(e, after + y, op, r);
          PadSpells(before, e, after, Attach(e, after + y, op, r), y, m);
        } else {
          EndSpells(l, y, op, r);
        }
      case _ => EndSpells(l, y, op, r);
    }
  }

  lemma EndSpells(l: Expr, y: string, op: Op, r: Expr)
    ensures Spell(Compare(op, Padded(l, y), r)) == Spell(l) + (y + (OpText(op) + Spell(r)))
  {
    PaddedSpells(l, y, OpText(op) + Spell(r));
  }

  lemma PaddedSpells(e: Expr, y: string, m: string)
    ensures Spell(Padded(e, y)) + m == Spell(e) + (y + m)
  {
    if y == "" {
      assert y + m == m;
    } else {
      assert "" + Spell(e) + y == Spell(e) + y;
      assert (Spell(e) + y) + m == Spell(e) + (y + m);
    }
  }

  lemma {:induction false} AttachWritable(l: Expr, y: string, op: Op, r: Expr)
    requires Writable(l) && Writable(r) && AllSpace(y)
    ensures Writable(Attach(l, y, op, r)) && Core(Attach(l, y, op, r)).Compare?
  {
    match l {
      case Compare(_, a, b) => AttachWritable(b, y, op, r);
      case Pad(before, e, after) =>
        if Core(e).Compare? { AttachWritable(e, after + y, op, r); } else { EndWritable(l, y, op, r); }
      case _ => EndWritable(l, y, op, r);
    }
  }

  lemma EndWritable(l: Expr, y: string, op: Op, r: Expr)
    requires Writable(l) && !Core(l).Compare? && Writable(r) && AllSpace(y)
    ensures Writable(Compare(op, Padded(l, y), r))
  {}

  /** The tree read is writable, and spells the very same text. */
  lemma {:induction false} RereadIsThere(e: Expr)
    ensures Loose(e) ==> Writable(Reread(e)) && (Core(Reread(e)).Compare? <==> Core(e).Compare?)
    ensures LoosePath(e) ==> WritablePath(Reread(e))
    ensures Spell(Reread(e)) == Spell(e)
  {
    match e {
      case Member(base, _) => RereadIsThere(base);
      case Index(base, at) => RereadIsThere(base); RereadIsThere(at);
      case Not(e') => RereadIsThere(e');
      case Compare(op, l, r) => RereadCompare(op, l, r);
      case Paren(e') => RereadIsThere(e');
      case Pad(_, e', _) => RereadIsThere(e');
      case _ =>
    }
  }

  lemma {:induction false} RereadCompare(op: Op, l: Expr, r: Expr)
    ensures Loose(Compare(op, l, r)) ==>
              Writable(Reread(Compare(op, l, r))) && Core(Reread(Compare(op, l, r))).Compare?
    ensures Spell(Reread(Compare(op, l, r))) == Spell(Compare(op, l, r))
    decreases Compare(op, l, r), 0
  {
    RereadIsThere(l);
    RereadIsThere(r);
    if Loose(l) && Loose(r) { AttachWritable(Reread(l), "", op, Reread(r)); }
    AttachSpells(Reread(l), "", op, Reread(r));
    assert "" + (OpText(op) + Spell(r)) == OpText(op) + Spell(r);
  }

  /** Every chain is read to the right: the text of any such tree resolves to the value of the tree in which each
      chain hangs to the right of its first operator. */
  lemma ChainsAreReadToTheRight(h: Host, vals: Value, e: Expr)
    requires Loose(e)
    ensures Resolved(h, vals, Spell(e)) == Meaning(h, vals, Reread(e))
  {
    RereadIsThere(e);
    TextMeansItsTree(h, vals, Reread(e));
  }

  // ---------------------------------------------------------------- telling the two trees apart

  lemma {:induction false} UnchainedIsReread(e: Expr)
    requires !HasChain(e)
    ensures Reread(e) == e
  {
    match e
    case Member(base, _) => UnchainedIsReread(base);
    case Index(base, at) => UnchainedIsReread(base); UnchainedIsReread(at);
    case Not(e') => UnchainedIsReread(e');
    case Compare(_, l, r) => UnchainedIsReread(l); UnchainedIsReread(r);
    case Paren(e') => UnchainedIsReread(e');
    case Pad(_, e', _) => UnchainedIsReread(e');
    case _ =>
  }

  function Weight(v: Value): (w: int)
    ensures w >= 1
  {
    if v.Ref? && v.id >= 1 then v.id else 1
  }

  /** Operators that weigh their operands, the left one of an equality double. */
  const SCALES := Host((b, k) => Ref(Weight(b) + Weight(k)), (op, l, r) => Ref(2 * Weight(l) + Weight(r)),
                       v => Ref(Weight(v) + 1), s => Ref(1))

  ghost function Weighed(e: Expr): int {
    Weight(Meaning(SCALES, Ref(1), e))
  }

  lemma WeighsCompare(op: Op, l: Expr, r: Expr)
    ensures Weighed(Compare(op, l, r)) == 2 * Weighed(l) + Weighed(r)
  {}

  lemma WeighsPad(before: string, e: Expr, after: string)
    ensures Weighed(Pad(before, e, after)) == Weighed(e)
  {}

  lemma WeighsEnd(l: Expr, y: string, op: Op, r: Expr)
    ensures Weighed(Compare(op, Padded(l, y), r)) == 2 * Weighed(l) + Weighed(r)
  {
    WeighsPad("", l, y);
    WeighsCompare(op, Padded(l, y), r);
  }

  /** Hanging a chain to the right makes it lighter. */
  lemma {:induction false} AttachIsLighter(l: Expr, y: string, op: Op, r: Expr)
    ensures var w, was := Weighed(Attach(l, y, op, r)), 2 * Weighed(l) + Weighed(r);
            w <= was && (Core(l).Compare? ==> w < was)
  {
    match l {
      case Compare(op1, a, b) =>
        AttachIsLighter(b, y, op, r);
        WeighsCompare(op1, a, b);
        WeighsCompare(op1, a, Attach(b, y, op, r));
      case Pad(before, e, after) =>
        WeighsPad(before, e, after);
        if Core(e).Compare? {
          AttachIsLighter(e, after + y, op, r);
          WeighsPad(before, Attach(e, after + y, op, r), "");
        } else {
          WeighsEnd(l, y, op, r);
        }
      case _ => WeighsEnd(l, y, op, r);
    }
  }

  lemma {:induction false} AttachMonotone(l: Expr, op: Op, r: Expr)
    ensures Weighed(Attach(l, "", op, r)) <= 2 * Weighed(l) + Weighed(r)
    ensures Core(l).Compare? ==> Weighed(Attach(l, "", op, r)) < 2 * Weighed(l) + Weighed(r)
  {
    AttachIsLighter(l, "", op, r);
  }

  predicate Lighter(e: Expr, was: int, now: int) {
    now <= was && (HasChain(e) ==> now < was)
  }

  lemma {:induction false} PathIsRef(e: Expr)
    requires LoosePath(e)
    ensures Meaning(SCALES, Ref(1), e).Ref? && Meaning(SCALES, Ref(1), Reread(e)).Ref?
  {
    match e
    case Name(_) =>
    case Member(base, _) => PathIsRef(base);
    case Index(base, _) => PathIsRef(base);
    case _ =>
  }

  lemma {:induction false} RereadIsLighter(e: Expr)
    requires Loose(e) || LoosePath(e)
    ensures Lighter(e, Weighed(e), Weighed(Reread(e)))
  {
    match e {
      case Member(base, _) => RereadIsLighter(base); PathIsRef(base);
      case Index(base, at) => RereadIsLighter(base); RereadIsLighter(at); PathIsRef(base);
      case Not(e') => RereadIsLighter(e');
      case Compare(op, l, r) =>
        RereadIsLighter(l);
        RereadIsLighter(r);
        RereadIsThere(l);
        AttachMonotone(Reread(l), op, Reread(r));
        WeighsCompare(op, l, r);
      case Paren(e') => RereadIsLighter(e');
      case Pad(_, e', _) => RereadIsLighter(e');
      case _ =>
    }
  }

  /** Exactly the trees without a chain keep their meaning: the text of a tree resolves to the value of the tree,
      whatever the operators compute, if and only if no equality has an unparenthesised equality as its left
      operand. */
  lemma KeepsMeaningIffUnchained(e: Expr)
    requires Loose(e)
    ensures (forall h: Host, vals :: Resolved(h, vals, Spell(e)) == Meaning(h, vals, e)) <==> !HasChain(e)
  {
    if HasChain(e) {
      ChainsAreReadToTheRight(SCALES, Ref(1), e);
      RereadIsLighter(e);
    } else {
      WritableIsUnchained(e);
      forall h: Host, vals ensures Resolved(h, vals, Spell(e)) == Meaning(h, vals, e) {
        TextMeansItsTree(h, vals, e);
      }
    }
  }

  /** The tree read is the tree written exactly when there is no chain. */
  lemma ReadsItsOwnTreeIff(e: Expr)
    requires Loose(e)
    ensures Reread(e) == e <==> !HasChain(e)
  {
    if HasChain(e) { RereadIsLighter(e); } else { UnchainedIsReread(e); }
  }

  // ---------------------------------------------------------------- with JavaScript's operators

  predicate Truthy(v: Value) {
    !(v.Undefined? || v.Null? || v == Bool(false) || v == Str("") || v == Num(0.0))
  }

  /** Values compared as they are. */
  const STRUCTURAL := Host((b, k) => Undefined, (op, l, r) => Bool((l == r) != IsUnequal(op)), v => Bool(!Truthy(v)),
                           s => if s == "2" then Num(2.0) else Num(0.0))

  const TWO := Number("2")
  const YES := Keyword("true")
  const TWO_TWO_TRUE := Compare(LooseEq, Compare(LooseEq, TWO, TWO), YES)

  /** `2==2==true` is true in JavaScript, and the resolver makes it false. */
  lemma ChainChangesMeaning(vals: Value)
    ensures IsJs(STRUCTURAL) && Spell(TWO_TWO_TRUE) == "2==2==true"
    ensures Meaning(STRUCTURAL, vals, TWO_TWO_TRUE) == Bool(true)
    ensures Resolved(STRUCTURAL, vals, Spell(TWO_TWO_TRUE)) == Bool(false)
  {
    TwoSpelled();
    TwoIsNumber();
    ChainsAreReadToTheRight(STRUCTURAL, vals, TWO_TWO_TRUE);
    TwoReread();
    TwoMeaning(vals);
  }

  lemma TwoSpelled()
    ensures Spell(TWO_TWO_TRUE) == "2==2==true"
  {
    assert Spell(Compare(LooseEq, TWO, TWO)) == "2" + ("==" + "2");
  }

  lemma TwoReread()
    ensures Reread(TWO_TWO_TRUE) == Compare(LooseEq, TWO, Compare(LooseEq, TWO, YES))
  {
    assert Reread(Compare(LooseEq, TWO, TWO)) == Compare(LooseEq, TWO, TWO);
  }

  lemma TwoMeaning(vals: Value)
    ensures Meaning(STRUCTURAL, vals, TWO_TWO_TRUE) == Bool(true)
    ensures Meaning(STRUCTURAL, vals, Compare(LooseEq, TWO, Compare(LooseEq, TWO, YES))) == Bool(false)
  {
    assert Meaning(STRUCTURAL, vals, Compare(LooseEq, TWO, TWO)) == Bool(true);
    assert Meaning(STRUCTURAL, vals, Compare(LooseEq, TWO, YES)) == Bool(false);
  }

  lemma TwoIsNumber()
    ensures IsNumber("2")
  {
    assert DigitsLen("2") == 1;
  }

  const CHAIN_OF_TRUE := Compare(LooseEq, Compare(LooseEq, YES, YES), YES)
  const LUCKY := Around(CHAIN_OF_TRUE)

  /** With booleans only, luck can hide a chain: `true==((true==true==true)==true)` has one, and keeps its meaning
      under all operators that give booleans. */
  lemma LuckCanHideAChain(h: JsHost, vals: Value)
    ensures Loose(LUCKY) && HasChain(LUCKY)
    ensures Resolved(h, vals, Spell(LUCKY)) == Meaning(h, vals, LUCKY)
  {
    LuckyIsAChain();
    ChainsAreReadToTheRight(h, vals, LUCKY);
    LuckyReread();
    LuckyMeaning(h, vals, CHAIN_OF_TRUE);
    LuckyMeaning(h, vals, RIGHT_CHAIN);
    Luck(h, Bool(true));
  }

  const RIGHT_CHAIN := Compare(LooseEq, YES, Compare(LooseEq, YES, YES))

  lemma LuckyIsAChain()
    ensures Loose(LUCKY) && HasChain(LUCKY)
  {
    assert Loose(CHAIN_OF_TRUE) && HasChain(CHAIN_OF_TRUE);
    assert HasChain(Compare(LooseEq, Paren(CHAIN_OF_TRUE), YES));
  }

  lemma LuckyReread()
    ensures Reread(LUCKY) == Around(RIGHT_CHAIN)
  {
    assert Reread(Compare(LooseEq, YES, YES)) == Compare(LooseEq, YES, YES);
    assert Reread(CHAIN_OF_TRUE) == RIGHT_CHAIN;
    assert Reread(Compare(LooseEq, Paren(CHAIN_OF_TRUE), YES)) == Compare(LooseEq, Paren(RIGHT_CHAIN), YES);
  }

  /** `true==((e)==true)` */
  function Around(e: Expr): Expr {
    Compare(LooseEq, YES, Paren(Compare(LooseEq, Paren(e), YES)))
  }

  lemma LuckyMeaning(h: Host, vals: Value, e: Expr)
    ensures var t := Bool(true);
            Meaning(h, vals, Around(e)) == h.compare(LooseEq, t, h.compare(LooseEq, Meaning(h, vals, e), t))
  {
    assert Meaning(h, vals, Compare(LooseEq, Paren(e), YES)) == h.compare(LooseEq, Meaning(h, vals, e), Bool(true));
  }

  lemma Luck(h: JsHost, t: Value)
    requires t == Bool(true)
    ensures var tt := h.compare(LooseEq, t, t);
            h.compare(LooseEq, t, h.compare(LooseEq, h.compare(LooseEq, tt, t), t))
            == h.compare(LooseEq, t, h.compare(LooseEq, h.compare(LooseEq, t, tt), t))
  {
    var f := Bool(false);
    var tt, tf, ft := h.compare(LooseEq, t, t), h.compare(LooseEq, t, f), h.compare(LooseEq, f, t);
    assert (tt == t || tt == f) && (tf == t || tf == f) && (ft == t || ft == f);
  }

  // ---------------------------------------------------------------- chains that booleans cannot hide

  /** Its value is a boolean, whatever the leaves are. */
  predicate IsBoolean(e: Expr) {
    match e
    case Keyword(word) => word == "true" || word == "false"
    case Not(_) => true
    case Compare(_, _, _) => true
    case Paren(e) => IsBoolean(e)
    case Pad(_, e, _) => IsBoolean(e)
    case _ => false
  }

  /** So is its last operand. */
  predicate EndsBoolean(e: Expr) {
    match e
    case Compare(_, _, r) => EndsBoolean(r)
    case Pad(_, e, _) => EndsBoolean(e)
    case _ => IsBoolean(e)
  }

  /** An odd number of chained operators follow an operand that is not a boolean. */
  predicate OddlyChained(e: Expr) {
    match e
    case Member(base, _) => OddlyChained(base)
    case Index(base, at) => OddlyChained(base) != OddlyChained(at)
    case Not(e) => OddlyChained(e)
    case Compare(_, l, r) => (OddlyChained(l) != OddlyChained(r)) != (Core(l).Compare? && !EndsBoolean(l))
    case Paren(e) => OddlyChained(e)
    case Pad(_, e, _) => OddlyChained(e)
    case _ => false
  }

  function Bit(v: Value): bool {
    v == Bool(true) || v == Ref(1)
  }

  /** Equalities that add up bits, and one more if the left operand is a boolean. */
  function Parity(op: Op, l: Value, r: Value): bool {
    (Bit(l) != Bit(r)) != (l.Bool? != IsUnequal(op))
  }

  const PARITY := Host((b, k) => Ref(if Bit(b) != Bit(k) then 1 else 0), (op, l, r) => Bool(Parity(op, l, r)),
                       v => Bool(!Bit(v)), s => Num(0.0))

  ghost function BitValue(e: Expr): Value {
    Meaning(PARITY, Ref(0), e)
  }

  lemma {:induction false} BooleanIs(e: Expr)
    requires Loose(e) || LoosePath(e)
    ensures BitValue(e).Bool? <==> IsBoolean(e)
    ensures LoosePath(e) ==> BitValue(e).Ref?
  {
    match e
    case Member(base, _) => BooleanIs(base);
    case Index(base, _) => BooleanIs(base);
    case Paren(e') => BooleanIs(e');
    case Pad(_, e', _) => BooleanIs(e');
    case _ =>
  }

  lemma {:induction false} EndsBooleanIs(e: Expr)
    ensures !Core(e).Compare? ==> EndsBoolean(e) == IsBoolean(e)
    ensures Core(e).Compare? ==> IsBoolean(e)
  {
    match e
    case Pad(_, e', _) => EndsBooleanIs(e');
    case _ =>
  }

  lemma EndsOfCompare(op: Op, a: Expr, r: Expr)
    ensures EndsBoolean(Compare(op, a, r)) == EndsBoolean(r)
  {}

  lemma EndsOfPad(before: string, e: Expr, after: string)
    ensures EndsBoolean(Pad(before, e, after)) == EndsBoolean(e)
  {}

  lemma {:induction false} AttachEnds(l: Expr, y: string, op: Op, r: Expr)
    ensures EndsBoolean(Attach(l, y, op, r)) == EndsBoolean(r)
  {
    match l {
      case Compare(op1, a, b) =>
        AttachEnds(b, y, op, r);
        EndsOfCompare(op1, a, Attach(b, y, op, r));
      case Pad(before, e, after) =>
        if Core(e).Compare? {
          AttachEnds(e, after + y, op, r);
          EndsOfPad(before, Attach(e, after + y, op, r), "");
        } else {
          EndsOfCompare(op, Padded(l, y), r);
        }
      case _ => EndsOfCompare(op, Padded(l, y), r);
    }
  }

  lemma {:induction false} RereadEnds(e: Expr)
    ensures EndsBoolean(Reread(e)) == EndsBoolean(e) && IsBoolean(Reread(e)) == IsBoolean(e)
  {
    match e {
      case Compare(op, l, r) =>
        RereadEnds(r);
        AttachEnds(Reread(l), "", op, Reread(r));
        AttachIsCompare(Reread(l), "", op, Reread(r));
      case Not(e') => RereadEnds(e');
      case Paren(e') => RereadEnds(e');
      case Pad(_, e', _) => RereadEnds(e');
      case _ =>
    }
  }

  lemma {:induction false} AttachIsCompare(l: Expr, y: string, op: Op, r: Expr)
    ensures Core(Attach(l, y, op, r)).Compare? && IsBoolean(Attach(l, y, op, r))
  {
    match l
    case Pad(_, e, after) => if Core(e).Compare? { AttachIsCompare(e, after + y, op, r); }
    case _ =>
  }

  /** Hanging a chain to the right flips the bit when the operand before the last operator is not a boolean. */
  lemma {:induction false} AttachFlips(l: Expr, y: string, op: Op, r: Expr)
    requires Writable(l)
    ensures Bit(BitValue(Attach(l, y, op, r))) ==
            (Bit(BitValue(Compare(op, l, r))) != (Core(l).Compare? && !EndsBoolean(l)))
  {
    match l {
      case Compare(op1, a, b) =>
        AttachFlips(b, y, op, r);
        WritableIsLoose(b);
        BooleanIs(b);
        EndsBooleanIs(b);
        FlipsCompare(op1, a, b, op, r, Attach(b, y, op, r));
      case Pad(before, e, after) =>
        if Core(e).Compare? {
          AttachFlips(e, after + y, op, r);
          PadValue(before, Attach(e, after + y, op, r), "");
          EndsOfPad(before, e, after);
          PadOperand(op, before, e, after, r);
        } else {
          PaddedOperand(op, l, y, r);
        }
      case _ => PaddedOperand(op, l, y, r);
    }
  }

  lemma PadValue(before: string, e: Expr, after: string)
    ensures BitValue(Pad(before, e, after)) == BitValue(e)
  {}

  lemma PadOperand(op: Op, before: string, e: Expr, after: string, r: Expr)
    ensures BitValue(Compare(op, Pad(before, e, after), r)) == BitValue(Compare(op, e, r))
  {
    PadValue(before, e, after);
  }

  lemma PaddedOperand(op: Op, l: Expr, y: string, r: Expr)
    ensures BitValue(Compare(op, Padded(l, y), r)) == BitValue(Compare(op, l, r))
  {
    PadOperand(op, "", l, y, r);
  }

  lemma FlipsCompare(op1: Op, a: Expr, b: Expr, op: Op, r: Expr, x: Expr)
    requires BitValue(b).Bool? <==> IsBoolean(b)
    requires if Core(b).Compare? then IsBoolean(b) else EndsBoolean(b) == IsBoolean(b)
    requires Bit(BitValue(x)) == (Bit(BitValue(Compare(op, b, r))) != (Core(b).Compare? && !EndsBoolean(b)))
    ensures Bit(BitValue(Compare(op1, a, x))) == (Bit(BitValue(Compare(op, Compare(op1, a, b), r))) != !EndsBoolean(b))
  {
    CompareBit(op, b, r);
    CompareBit(op1, a, x);
    CompareBit(op1, a, b);
    CompareBit(op, Compare(op1, a, b), r);
  }

  lemma CompareBit(op: Op, l: Expr, r: Expr)
    ensures Bit(BitValue(Compare(op, l, r))) == Parity(op, BitValue(l), BitValue(r)) && BitValue(Compare(op, l, r)).Bool?
  {}

  lemma {:induction false} WritableIsLoose(e: Expr)
    ensures Writable(e) ==> Loose(e)
    ensures WritablePath(e) ==> LoosePath(e)
  {
    match e
    case Member(base, _) => WritableIsLoose(base);
    case Index(base, at) => WritableIsLoose(base); WritableIsLoose(at);
    case Not(e') => WritableIsLoose(e');
    case Compare(_, l, r) => WritableIsLoose(l); WritableIsLoose(r);
    case Paren(e') => WritableIsLoose(e');
    case Pad(_, e', _) => WritableIsLoose(e');
    case _ =>
  }

  lemma {:induction false} RereadFlips(e: Expr)
    requires Loose(e) || LoosePath(e)
    ensures Bit(BitValue(Reread(e))) == (Bit(BitValue(e)) != OddlyChained(e))
  {
    match e {
      case Member(base, member) => RereadFlips(base); RefBoth(base);
      case Index(base, at) => RereadFlips(base); RereadFlips(at); RefBoth(base);
      case Not(e') => RereadFlips(e');
      case Compare(op, l, r) => RereadFlips(l); RereadFlips(r); CompareFlips(op, l, r);
      case Paren(e') => RereadFlips(e');
      case Pad(_, e', _) => RereadFlips(e');
      case _ =>
    }
  }

  lemma RefBoth(base: Expr)
    requires LoosePath(base)
    ensures BitValue(base).Ref? && BitValue(Reread(base)).Ref?
  {
    BooleanIs(base);
    RereadIsThere(base);
    WritableIsLoose(Reread(base));
    BooleanIs(Reread(base));
  }

  lemma CompareFlips(op: Op, l: Expr, r: Expr)
    requires Loose(l) && Loose(r)
    requires Bit(BitValue(Reread(l))) == (Bit(BitValue(l)) != OddlyChained(l))
    requires Bit(BitValue(Reread(r))) == (Bit(BitValue(r)) != OddlyChained(r))
    ensures Bit(BitValue(Reread(Compare(op, l, r)))) == (Bit(BitValue(Compare(op, l, r))) != OddlyChained(Compare(op, l, r)))
  {
    RereadIsThere(l);
    RereadEnds(l);
    AttachFlips(Reread(l), "", op, Reread(r));
    BooleanIs(l);
    WritableIsLoose(Reread(l));
    BooleanIs(Reread(l));
    CompareBit(op, l, r);
    CompareBit(op, Reread(l), Reread(r));
  }

  /** Among operators that give booleans, too, there are some for which a tree changes its meaning, whenever an odd
      number of its chained operators follow an operand that is not a boolean: a single such chain at any depth. */
  lemma OddChainsChangeMeaning(e: Expr)
    requires Loose(e) && OddlyChained(e)
    ensures exists h: JsHost, vals :: Resolved(h, vals, Spell(e)) != Meaning(h, vals, e)
  {
    ChainsAreReadToTheRight(PARITY, Ref(0), e);
    RereadFlips(e);
    ParityIsJs();
    var h: JsHost := PARITY;
    assert Resolved(h, Ref(0), Spell(e)) != Meaning(h, Ref(0), e);
  }

  lemma ParityIsJs()
    ensures IsJs(PARITY)
  {}
}
