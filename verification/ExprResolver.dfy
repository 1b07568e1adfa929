/** The `{{ }}` expression resolver (packages/design/support.js): a scanner that finds its own structure in
    the text on every call, set against the meaning of the expression tree the text spells. */
module ExprResolver {
  import opened Options
  import opened Text

  datatype Value = Undefined | Null | Bool(b: bool) | Str(s: string) | Num(n: real) | Ref(id: int)

  datatype Op = StrictEq | StrictNe | LooseEq | LooseNe

  /** The operators the resolver leans on: member access, the four equalities, `!` and Number. The results below
      hold whatever they compute, even values that are not booleans. */
  datatype Host = Host(
    get: (Value, Value) -> Value,
    compare: (Op, Value, Value) -> Value,
    negate: Value -> Value,
    number: string -> Value)

  /** As in JavaScript: equalities and `!` give booleans, and the unequal operators negate the equal ones. */
  ghost predicate IsJs(h: Host) {
    && (forall op, l, r :: h.compare(op, l, r).Bool?)
    && (forall l, r :: h.compare(StrictNe, l, r) == Bool(!h.compare(StrictEq, l, r).b))
    && (forall l, r :: h.compare(LooseNe, l, r) == Bool(!h.compare(LooseEq, l, r).b))
    && (forall v :: h.negate(v).Bool?)
  }

  predicate IsUnequal(op: Op) {
    op == StrictNe || op == LooseNe
  }

  type JsHost = h: Host | IsJs(h)
    witness Host((b, k) => Undefined, (op, l, r) => Bool(IsUnequal(op)), v => Bool(false), s => Undefined)

  function OpText(op: Op): string {
    match op
    case StrictEq => "==="
    case StrictNe => "!=="
    case LooseEq => "=="
    case LooseNe => "!="
  }

  /** `base == null ? undefined : base[key]` */
  function ReadMember(h: Host, base: Value, key: Value): Value {
    if base.Undefined? || base.Null? then Undefined else h.get(base, key)
  }

  // ---------------------------------------------------------------- lexical pieces

  predicate IsIdentStart(c: char) { 'A' <= c <= 'Z' || 'a' <= c <= 'z' || c == '_' || c == '$' }

  predicate IsIdentPart(c: char) { IsIdentStart(c) || IsDigit(c) }

  function PartLen(s: string): (n: nat)
    ensures n <= |s|
  {
    if s != "" && IsIdentPart(s[0]) then 1 + PartLen(s[1..]) else 0
  }

  /** Length of the identifier a string starts with, 0 when it starts with none. */
  function IdentLen(s: string): (n: nat)
    ensures n <= |s|
  {
    if s != "" && IsIdentStart(s[0]) then 1 + PartLen(s[1..]) else 0
  }

  function DigitsLen(s: string): (n: nat)
    ensures n <= |s|
  {
    if s != "" && IsDigit(s[0]) then 1 + DigitsLen(s[1..]) else 0
  }

  predicate IsNumber(s: string) {
    var t := if s != "" && s[0] == '-' then s[1..] else s;
    var n := DigitsLen(t);
    n > 0 && (n == |t| || (t[n] == '.' && n + 1 < |t| && DigitsLen(t[n + 1..]) == |t| - n - 1))
  }

  predicate IsKeyword(s: string) { s == "true" || s == "false" || s == "null" || s == "undefined" }

  function KeywordValue(s: string): Value
    requires IsKeyword(s)
  {
    if s == "true" then Bool(true) else if s == "false" then Bool(false) else if s == "null" then Null else Undefined
  }

  /** What may follow a dot: an identifier, else a run of digits. */
  function NameLen(s: string): (n: nat)
    ensures n <= |s|
  {
    if IdentLen(s) > 0 then IdentLen(s) else DigitsLen(s)
  }

  // ---------------------------------------------------------------- bracket depth

  datatype Brackets = Round | Square | Both

  function Nest(k: Brackets, c: char): int {
    if (c == '(' && k != Square) || (c == '[' && k != Round) then 1
    else if (c == ')' && k != Square) || (c == ']' && k != Round) then -1
    else 0
  }

  /** Brackets of kind k open after the first i characters. */
  function Depth(k: Brackets, s: string, i: nat): int
    requires i <= |s|
  {
    if i == 0 then 0 else Depth(k, s, i - 1) + Nest(k, s[i - 1])
  }

  /** Parentheses open at the start and close only at the end. */
  ghost predicate WrapsWhole(s: string) {
    forall i | 0 <= i < |s| - 1 && s[i] == ')' :: Depth(Round, s, i + 1) != 0
  }

  method ParensWrapWhole(expr: string) returns (wraps: bool)
    ensures wraps == WrapsWhole(expr)
  {
    var depth := 0;
    for i := 0 to |expr| - (if expr == "" then 0 else 1)
      invariant depth == Depth(Round, expr, i)
      invariant forall k | 0 <= k < i && expr[k] == ')' :: Depth(Round, expr, k + 1) != 0
    {
      if expr[i] == '(' {
        depth := depth + 1;
      } else if expr[i] == ')' {
        depth := depth - 1;
        if depth == 0 { return false; }
      }
    }
    return true;
  }

  // ---------------------------------------------------------------- top-level equality

  predicate EqChar(c: char) { c == '=' || c == '!' }

  datatype Found = Found(index: nat, op: Op)

  ghost predicate BlankBefore(s: string, i: nat) {
    forall k | 0 <= k < i && k < |s| :: IsSpace(s[k])
  }

  lemma TrimsBlank(s: string, i: nat)
    requires i <= |s|
    ensures Trim(s[..i]) == "" <==> BlankBefore(s, i)
  {
    var t := s[..i];
    var a, b := TrimSplit(t);
    if Trim(t) == "" {
      assert t == a + b;
      assert forall k | 0 <= k < i :: s[k] == t[k];
    } else {
      assert t[|a|] == Trim(t)[0];
      assert s[|a|] == t[|a|];
    }
  }

  /** Position i starts an equality operator outside all brackets, with something to its left. */
  ghost predicate EqualityAt(s: string, i: nat) {
    && i + 1 < |s| && Depth(Both, s, i) == 0 && EqChar(s[i]) && s[i + 1] == '='
    && !(i > 0 && EqChar(s[i - 1])) && !BlankBefore(s, i)
  }

  function OpAt(s: string, i: nat): (op: Op)
    requires i + 1 < |s| && EqChar(s[i]) && s[i + 1] == '='
    ensures i + |OpText(op)| <= |s|
  {
    var strict := i + 2 < |s| && s[i + 2] == '=';
    if s[i] == '=' then (if strict then StrictEq else LooseEq) else if strict then StrictNe else LooseNe
  }

  ghost function EqualityFrom(s: string, i: nat): (r: Option<Found>)
    requires i <= |s|
    ensures r.Some? ==> EqualityAt(s, r.value.index) && r.value.op == OpAt(s, r.value.index)
    decreases |s| - i
  {
    if i == |s| then None
    else if EqualityAt(s, i) then Some(Found(i, OpAt(s, i)))
    else EqualityFrom(s, i + 1)
  }

  /** The leftmost top-level equality, if there is one. */
  ghost function TopLevelEquality(s: string): (r: Option<Found>)
    ensures r.Some? ==> 0 < r.value.index && r.value.index + |OpText(r.value.op)| <= |s|
  {
    EqualityFrom(s, 0)
  }

  lemma {:induction false} EqualityIsLeast(s: string, from: nat, i: nat)
    requires from <= i <= |s| && forall k: nat | from <= k < i :: !EqualityAt(s, k)
    ensures EqualityFrom(s, from) == EqualityFrom(s, i)
    ensures EqualityAt(s, i) ==> EqualityFrom(s, from) == Some(Found(i, OpAt(s, i)))
    decreases i - from
  {
    if from < i { EqualityIsLeast(s, from + 1, i); }
  }

  method FindTopLevelEquality(expr: string) returns (r: Option<Found>)
    ensures r == TopLevelEquality(expr)
  {
    var depth := 0;
    for i := 0 to |expr|
      invariant depth == Depth(Both, expr, i)
      invariant forall k: nat | k < i :: !EqualityAt(expr, k)
    {
      var c := expr[i];
      if c == '[' || c == '(' {
        depth := depth + 1;
      } else if c == ']' || c == ')' {
        depth := depth - 1;
      } else if depth == 0 && (c == '=' || c == '!') && i + 1 < |expr| && expr[i + 1] == '=' {
        TrimsBlank(expr, i);
        if i > 0 && (expr[i - 1] == '=' || expr[i - 1] == '!') { continue; }
        if Trim(expr[..i]) == "" { continue; }
        EqualityIsLeast(expr, 0, i);
        var strict := i + 2 < |expr| && expr[i + 2] == '=';
        var op := if strict then (if c == '=' then StrictEq else StrictNe) else if c == '=' then LooseEq else LooseNe;
        return Some(Found(i, op));
      }
    }
    EqualityIsLeast(expr, 0, |expr|);
    return None;
  }

  // ---------------------------------------------------------------- paths

  /** The index of the `]` that brings a bracket depth of `depth` before position j down to 0. */
  function CloseFrom(s: string, j: nat, depth: nat): (r: Option<nat>)
    requires j <= |s| && depth > 0
    ensures r.Some? ==> j <= r.value < |s|
    decreases |s| - j
  {
    if j == |s| then None
    else if s[j] == '[' then CloseFrom(s, j + 1, depth + 1)
    else if s[j] == ']' then (if depth == 1 then Some(j) else CloseFrom(s, j + 1, depth - 1))
    else CloseFrom(s, j + 1, depth)
  }

  /** The matching `]` of the `[` at position i. */
  method FindClose(expr: string, i: nat) returns (r: Option<nat>)
    requires i < |expr|
    ensures r == CloseFrom(expr[i..], 1, 1)
  {
    var rest := expr[i..];
    var depth, j := 1, i + 1;
    while j < |expr| && depth > 0
      invariant i < j <= |expr| && depth > 0
      invariant CloseFrom(rest, 1, 1) == CloseFrom(rest, j - i, depth)
      decreases |expr| - j
    {
      assert rest[j - i] == expr[j];
      if expr[j] == '[' {
        depth := depth + 1;
      } else if expr[j] == ']' {
        if depth == 1 { return Some(j - i); }
        depth := depth - 1;
      }
      j := j + 1;
    }
    return None;
  }

  /** What a path continues with. */
  datatype Part = End | Bad | Dotted(name: string, rest: string) | Bracketed(inner: string, rest: string)

  function PartOf(s: string): (p: Part)
    ensures p.Dotted? ==> |p.rest| < |s|
    ensures p.Bracketed? ==> |p.rest| < |s| && |p.inner| < |s|
  {
    if s == "" then End
    else if s[0] == '.' then
      var n := NameLen(s[1..]);
      if n == 0 then Bad else Dotted(s[1..1 + n], s[1 + n..])
    else if s[0] == '[' then
      match CloseFrom(s, 1, 1)
      case None => Bad
      case Some(j) => Bracketed(s[1..j], s[j + 1..])
    else Bad
  }

  // ---------------------------------------------------------------- the resolver

  predicate IsQuoted(expr: string) {
    |expr| >= 2 && (expr[0] == '"' || expr[0] == '\'') && expr[|expr| - 1] == expr[0]
  }

  /** Keywords, numbers and string literals. */
  function Literal(h: Host, expr: string): Option<Value> {
    if IsKeyword(expr) then Some(KeywordValue(expr))
    else if IsNumber(expr) then Some(h.number(expr))
    else if IsQuoted(expr) then Some(Str(expr[1..|expr| - 1]))
    else None
  }

  /** How the scanner takes a text apart. */
  datatype Form = Blank | Group(inner: string) | Equality(l: string, op: Op, r: string) | Negation(inner: string) | Atom(text: string)

  ghost function FormOf(src: string): (f: Form)
    ensures f.Group? || f.Negation? ==> |f.inner| < |src|
    ensures f.Equality? ==> |f.l| < |src| && |f.r| < |src|
    ensures f.Atom? ==> |f.text| <= |src|
  {
    var expr := Trim(src);
    if expr == "" then Blank
    else if expr[0] == '(' && expr[|expr| - 1] == ')' && WrapsWhole(expr) then Group(expr[1..|expr| - 1])
    else
      match TopLevelEquality(expr)
      case Some(eq) => Equality(expr[..eq.index], eq.op, expr[eq.index + |OpText(eq.op)|..])
      case None => if expr[0] == '!' then Negation(expr[1..]) else Atom(expr)
  }

  /** The value `resolve` gives a text. Every recursive call is on a strictly shorter string. */
  ghost function Resolved(h: Host, vals: Value, src: string): Value
    decreases |src|, 1
  {
    match FormOf(src)
    case Blank => Undefined
    case Group(inner) => Resolved(h, vals, inner)
    case Equality(l, op, r) => h.compare(op, Resolved(h, vals, l), Resolved(h, vals, r))
    case Negation(inner) => h.negate(Resolved(h, vals, inner))
    case Atom(text) => if Literal(h, text).Some? then Literal(h, text).value else PathValue(h, vals, text)
  }

  ghost function PathValue(h: Host, vals: Value, expr: string): Value
    decreases |expr|, 0
  {
    var n := IdentLen(expr);
    if n == 0 then Undefined else Walk(h, vals, ReadMember(h, vals, Str(expr[..n])), expr[n..])
  }

  /** The rest of a path read from `cur`. */
  ghost function Walk(h: Host, vals: Value, cur: Value, rest: string): Value
    decreases |rest|, 0
  {
    match PartOf(rest)
    case End => cur
    case Bad => Undefined
    case Dotted(name, more) => Walk(h, vals, ReadMember(h, cur, Str(name)), more)
    case Bracketed(inner, more) => Walk(h, vals, ReadMember(h, cur, Resolved(h, vals, inner)), more)
  }

  /** The scanner's view of a text: parentheses around all of it, else its leftmost equality, else a leading `!`. */
  method Scan(src: string) returns (f: Form)
    ensures f == FormOf(src)
  {
    var expr := Trim(src);
    if expr == "" { return Blank; }
    if expr[0] == '(' && expr[|expr| - 1] == ')' {
      var whole := ParensWrapWhole(expr);
      if whole { return Group(expr[1..|expr| - 1]); }
    }
    var eq := FindTopLevelEquality(expr);
    if eq.Some? {
      return Equality(expr[..eq.value.index], eq.value.op, expr[eq.value.index + |OpText(eq.value.op)|..]);
    }
    if expr[0] == '!' { return Negation(expr[1..]); }
    return Atom(expr);
  }

  method Resolve(h: Host, vals: Value, src: string) returns (v: Value)
    ensures v == Resolved(h, vals, src)
    decreases |src|, 2
  {
    var form := Scan(src);
    match form
    case Blank => v := Undefined;
    case Group(inner) => v := Resolve(h, vals, inner);
    case Equality(l, op, r) =>
      var lv := Resolve(h, vals, l);
      var rv := Resolve(h, vals, r);
      v := h.compare(op, lv, rv);
    case Negation(inner) =>
      var iv := Resolve(h, vals, inner);
      v := h.negate(iv);
    case Atom(text) => v := ResolveAtom(h, vals, text);
  }

  method ResolveAtom(h: Host, vals: Value, expr: string) returns (v: Value)
    ensures v == if Literal(h, expr).Some? then Literal(h, expr).value else PathValue(h, vals, expr)
    decreases |expr|, 1
  {
    if expr == "true" { return Bool(true); }
    if expr == "false" { return Bool(false); }
    if expr == "null" { return Null; }
    if expr == "undefined" { return Undefined; }
    if IsNumber(expr) { return h.number(expr); }
    if |expr| >= 2 && (expr[0] == '"' || expr[0] == '\'') && expr[|expr| - 1] == expr[0] { return Str(expr[1..|expr| - 1]); }
    v := ResolvePath(h, vals, expr);
  }

  /** The part at position i of a path: its name, or the text between its brackets, and where the scan goes on. */
  method ScanPart(expr: string, i: nat) returns (part: Part, next: nat)
    requires i < |expr|
    ensures part == PartOf(expr[i..]) && !part.End?
    ensures part.Dotted? || part.Bracketed? ==> i < next <= |expr| && part.rest == expr[next..]
  {
    next := i;
    if expr[i] == '.' {
      assert expr[i..][1..] == expr[i + 1..];
      var n := NameLen(expr[i + 1..]);
      if n == 0 { return Bad, i; }
      next := i + 1 + n;
      part := Dotted(expr[i + 1..next], expr[next..]);
      assert expr[i..][1..1 + n] == expr[i + 1..next] && expr[i..][1 + n..] == expr[next..];
    } else if expr[i] == '[' {
      var close := FindClose(expr, i);
      if close.None? { return Bad, i; }
      next := i + close.value + 1;
      part := Bracketed(expr[i + 1..next - 1], expr[next..]);
      var j := close.value;
      assert expr[i..][1..j] == expr[i + 1..next - 1] && expr[i..][j + 1..] == expr[next..];
    } else {
      part := Bad;
    }
  }

  method ResolvePath(h: Host, vals: Value, expr: string) returns (v: Value)
    ensures v == PathValue(h, vals, expr)
    decreases |expr|, 0
  {
    var head := IdentLen(expr);
    if head == 0 { return Undefined; }
    var cur, i := ReadMember(h, vals, Str(expr[..head])), head;
    while i < |expr|
      invariant head <= i <= |expr|
      invariant Walk(h, vals, cur, expr[i..]) == PathValue(h, vals, expr)
      decreases |expr| - i
    {
      var part, next := ScanPart(expr, i);
      if part.Bad? { return Undefined; }
      var key := Str("");
      if part.Dotted? {
        key := Str(part.name);
      } else {
        key := Resolve(h, vals, part.inner);
      }
      cur, i := ReadMember(h, cur, key), next;
    }
    return cur;
  }
}
