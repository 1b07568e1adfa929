/** React keys for the children of a deck (packages/design/support.js): slides are keyed by their own id and
    the whitespace before a slide by the slide it precedes, so that both travel with the slide. */
module DeckKeys {
  import opened Options
  import opened Text

  /** A child that has a builder. `slideId` is the attribute data-om-slide-id. */
  datatype Node =
    | TextNode(value: string)
    | Element(localName: string, slideId: Option<string>)
    | Other

  /** The index of the child, or a name. React compares keys as strings. */
  datatype Key = Index(j: nat) | Name(name: string)

  predicate IsAux(tag: string) {
    tag == "template" || tag == "script" || tag == "style" || tag == "sc-helmet" || tag == "helmet"
  }

  predicate IsControlFlow(tag: string) {
    tag == "sc-if" || tag == "sc-for" || tag == "sc-else" || tag == "dc-import" || tag == "x-import"
  }

  predicate IsHex(c: char) {
    '0' <= c <= '9' || 'a' <= c <= 'f'
  }

  predicate IsSlideId(v: string) {
    |v| == 8 && forall k :: 0 <= k < 8 ==> IsHex(v[k])
  }

  predicate IsSlide(n: Node) {
    n.Element? && !IsAux(n.localName) && !IsControlFlow(n.localName)
  }

  predicate IsBlank(n: Node) {
    n.TextNode? && Trim(n.value) == ""
  }

  function AsReactString(k: Key): string {
    match k
    case Index(j) => Decimal(j)
    case Name(s) => s
  }

  // ---------------------------------------------------------------- the keys, child by child

  /** What the next element at or after `j` offers as a slide id. */
  function Upcoming(nodes: seq<Node>, j: nat): Option<string>
    requires j <= |nodes|
    decreases |nodes| - j
  {
    if j == |nodes| then None
    else if nodes[j].Element? then (if IsSlide(nodes[j]) then nodes[j].slideId else None)
    else Upcoming(nodes, j + 1)
  }

  function BaseOf(upcoming: Option<string>): string {
    if upcoming.Some? && upcoming.value != "" then "omid-ws:" + upcoming.value else "omid-ws:aux"
  }

  function Base(nodes: seq<Node>, j: nat): string
    requires j <= |nodes|
  {
    BaseOf(Upcoming(nodes, j))
  }

  /** How many whitespace children before `j` have the base `base`. */
  function Earlier(nodes: seq<Node>, j: nat, base: string): nat
    requires j <= |nodes|
  {
    if j == 0 then 0
    else Earlier(nodes, j - 1, base) + (if IsBlank(nodes[j - 1]) && Base(nodes, j - 1) == base then 1 else 0)
  }

  function Numbered(base: string, n: nat): string {
    if n == 0 then base else base + ":" + Decimal(n)
  }

  function KeyFor(nodes: seq<Node>, j: nat): Key
    requires j < |nodes|
  {
    if nodes[j].TextNode? then Name(Numbered(Base(nodes, j), Earlier(nodes, j, Base(nodes, j))))
    else if IsSlide(nodes[j]) && nodes[j].slideId.Some? then Name("omid:" + nodes[j].slideId.value)
    else Index(j)
  }

  /** The slide ids used before `j`. */
  function IdsBefore(nodes: seq<Node>, j: nat): set<string>
    requires j <= |nodes|
  {
    if j == 0 then {}
    else if IsSlide(nodes[j - 1]) && nodes[j - 1].slideId.Some? then IdsBefore(nodes, j - 1) + {nodes[j - 1].slideId.value}
    else IdsBefore(nodes, j - 1)
  }

  lemma {:induction false} IdIsBefore(nodes: seq<Node>, i: nat, j: nat)
    requires i < j <= |nodes| && IsSlide(nodes[i]) && nodes[i].slideId.Some?
    ensures nodes[i].slideId.value in IdsBefore(nodes, j)
  {
    if i + 1 < j { IdIsBefore(nodes, i, j - 1); }
  }

  /** A child that makes the runtime give up naming keys. */
  predicate Refuses(nodes: seq<Node>, j: nat)
    requires j < |nodes|
  {
    match nodes[j]
    case TextNode(value) => Trim(value) != ""
    case Element(tag, id) =>
      if IsSlide(nodes[j]) then id.None? || !IsSlideId(id.value) || id.value in IdsBefore(nodes, j)
      else !IsAux(tag)
    case Other => false
  }

  ghost predicate Accepted(nodes: seq<Node>) {
    forall j :: 0 <= j < |nodes| ==> !Refuses(nodes, j)
  }

  /** What the forward loop has done when it reaches child `j`. */
  ghost predicate KeyedUpTo(nodes: seq<Node>, j: nat, out: seq<Key>)
    requires j <= |nodes|
  {
    |out| == j && forall k :: 0 <= k < j ==> !Refuses(nodes, k) && out[k] == KeyFor(nodes, k)
  }

  lemma KeyedStep(nodes: seq<Node>, j: nat, out: seq<Key>)
    requires j < |nodes| && KeyedUpTo(nodes, j, out) && !Refuses(nodes, j)
    ensures KeyedUpTo(nodes, j + 1, out + [KeyFor(nodes, j)])
  {}

  function Count(m: map<string, nat>, b: string): nat {
    if b in m then m[b] else 0
  }

  ghost predicate Counted(nodes: seq<Node>, j: nat, m: map<string, nat>)
    requires j <= |nodes|
  {
    forall b :: Count(m, b) == Earlier(nodes, j, b)
  }

  lemma CountedStep(nodes: seq<Node>, j: nat, m: map<string, nat>)
    requires j < |nodes| && Counted(nodes, j, m)
    ensures var b := Base(nodes, j);
            Counted(nodes, j + 1, if IsBlank(nodes[j]) then m[b := Earlier(nodes, j, b) + 1] else m)
  {
    var b := Base(nodes, j);
    var m' := if IsBlank(nodes[j]) then m[b := Earlier(nodes, j, b) + 1] else m;
    forall c ensures Count(m', c) == Earlier(nodes, j + 1, c) {
      assert Count(m, c) == Earlier(nodes, j, c);
      assert Earlier(nodes, j + 1, c) == Earlier(nodes, j, c) + (if IsBlank(nodes[j]) && b == c then 1 else 0);
    }
  }

  ghost predicate FilledFrom(nodes: seq<Node>, j: nat, next: seq<Option<string>>) {
    |next| == |nodes| && forall k :: j <= k < |nodes| ==> next[k] == Upcoming(nodes, k)
  }

  lemma FilledStep(nodes: seq<Node>, j: nat, next: seq<Option<string>>)
    requires j < |nodes| && FilledFrom(nodes, j + 1, next)
    ensures FilledFrom(nodes, j, next[j := Upcoming(nodes, j)])
  {}

  // ---------------------------------------------------------------- the two passes

  method UpcomingIds(nodes: seq<Node>) returns (next: array<Option<string>>)
    ensures fresh(next) && next.Length == |nodes|
    ensures FilledFrom(nodes, 0, next[..])
  {
    next := new Option<string>[|nodes|](_ => None);
    var upcoming: Option<string> := None;
    var j := |nodes|;
    while j > 0
      invariant 0 <= j <= |nodes|
      invariant upcoming == Upcoming(nodes, j)
      invariant FilledFrom(nodes, j, next[..])
    {
      FilledStep(nodes, j - 1, next[..]);
      j := j - 1;
      if nodes[j].Element? {
        var t := nodes[j].localName;
        upcoming := if !IsAux(t) && !IsControlFlow(t) then nodes[j].slideId else None;
      }
      ghost var was := next[..];
      next[j] := upcoming;
      assert next[..] == was[j := upcoming];
    }
  }

  /** No key means a refusing child; otherwise child j has the key KeyFor(nodes, j). */
  method WalkDeckChildren(nodes: seq<Node>) returns (keys: Option<seq<Key>>)
    ensures keys.Some? <==> Accepted(nodes)
    ensures keys.Some? ==> |keys.value| == |nodes|
    ensures keys.Some? ==> forall j :: 0 <= j < |nodes| ==> keys.value[j] == KeyFor(nodes, j)
  {
    var next := UpcomingIds(nodes);
    var seen: set<string> := {};
    var wsSeen: map<string, nat> := map[];
    var out: seq<Key> := [];
    for j := 0 to |nodes|
      invariant KeyedUpTo(nodes, j, out)
      invariant seen == IdsBefore(nodes, j)
      invariant Counted(nodes, j, wsSeen)
      invariant FilledFrom(nodes, 0, next[..])
    {
      var c := nodes[j];
      assert next[..][j] == next[j];
      CountedStep(nodes, j, wsSeen);
      if !Refuses(nodes, j) { KeyedStep(nodes, j, out); }
      if c.TextNode? {
        if Trim(c.value) != "" {
          assert Refuses(nodes, j);
          return None;
        }
        var base := if next[j].Some? && next[j].value != "" then "omid-ws:" + next[j].value else "omid-ws:aux";
        var n := Count(wsSeen, base);
        wsSeen := wsSeen[base := n + 1];
        out := out + [Name(if n == 0 then base else base + ":" + Decimal(n))];
      } else if c.Other? || IsAux(c.localName) {
        out := out + [Index(j)];
      } else if IsControlFlow(c.localName) {
        assert Refuses(nodes, j);
        return None;
      } else {
        if c.slideId.None? || !IsSlideId(c.slideId.value) || c.slideId.value in seen {
          assert Refuses(nodes, j);
          return None;
        }
        seen := seen + {c.slideId.value};
        out := out + [Name("omid:" + c.slideId.value)];
      }
    }
    keys := Some(out);
  }

  // ---------------------------------------------------------------- which decks are keyed

  /** A child that needs no name of its own: blank text, an auxiliary element, or no element at all. */
  ghost predicate Nameless(n: Node) {
    match n
    case TextNode(value) => AllSpace(value)
    case Element(tag, _) => tag in ["template", "script", "style", "sc-helmet", "helmet"]
    case Other => true
  }

  /** A slide: an element that is neither auxiliary nor control flow, with an id of eight lower-case hex digits. */
  ghost predicate NamedSlide(n: Node) {
    && n.Element? && n.localName !in ["template", "script", "style", "sc-helmet", "helmet"]
    && n.localName !in ["sc-if", "sc-for", "sc-else", "dc-import", "x-import"]
    && n.slideId.Some? && |n.slideId.value| == 8
    && forall k :: 0 <= k < 8 ==> n.slideId.value[k] in "0123456789abcdef"
  }

  lemma HexIs(c: char)
    ensures IsHex(c) <==> c in "0123456789abcdef"
  {
    if IsHex(c) { assert c in "0123456789abcdef"; }
  }

  lemma SlideIdIs(v: string)
    ensures IsSlideId(v) <==> |v| == 8 && forall k :: 0 <= k < 8 ==> v[k] in "0123456789abcdef"
  {
    if |v| == 8 {
      forall k | 0 <= k < 8 ensures IsHex(v[k]) <==> v[k] in "0123456789abcdef" { HexIs(v[k]); }
    }
  }

  lemma BlankIs(v: string)
    ensures Trim(v) == "" <==> AllSpace(v)
  {
    var a, b := TrimSplit(v);
    if Trim(v) == "" { assert v == a + b; }
    if AllSpace(v) { TrimUnique(v, "", ""); assert v + "" + "" == v; }
  }

  lemma {:induction false} IdsBeforeIs(nodes: seq<Node>, j: nat, id: string)
    requires j <= |nodes|
    ensures id in IdsBefore(nodes, j) <==> exists i :: 0 <= i < j && IsSlide(nodes[i]) && nodes[i].slideId == Some(id)
  {
    if j > 0 { IdsBeforeIs(nodes, j - 1, id); }
  }

  /** Child by child: whether it has to be named, can be, and is not a copy of an earlier slide. */
  lemma RefusesIff(nodes: seq<Node>, j: nat)
    requires j < |nodes|
    ensures !Refuses(nodes, j) <==>
              Nameless(nodes[j])
              || (NamedSlide(nodes[j]) && !exists i :: 0 <= i < j && IsSlide(nodes[i]) && nodes[i].slideId == nodes[j].slideId)
  {
    match nodes[j]
    case TextNode(value) => BlankIs(value);
    case Element(tag, id) =>
      if id.Some? {
        SlideIdIs(id.value);
        IdsBeforeIs(nodes, j, id.value);
      }
    case Other =>
  }

  /** A deck is keyed exactly when every child of it is nameless or a slide, and no two slides share an id. */
  lemma AcceptedIff(nodes: seq<Node>)
    ensures Accepted(nodes) <==>
            && (forall j :: 0 <= j < |nodes| ==> Nameless(nodes[j]) || NamedSlide(nodes[j]))
            && (forall i, j :: 0 <= i < j < |nodes| && NamedSlide(nodes[i]) && NamedSlide(nodes[j]) ==> nodes[i].slideId != nodes[j].slideId)
  {
    if Accepted(nodes) {
      forall j | 0 <= j < |nodes| ensures Nameless(nodes[j]) || NamedSlide(nodes[j]) {
        assert !Refuses(nodes, j);
        RefusesIff(nodes, j);
      }
      forall i, j | 0 <= i < j < |nodes| && NamedSlide(nodes[i]) && NamedSlide(nodes[j])
        ensures nodes[i].slideId != nodes[j].slideId
      {
        assert !Refuses(nodes, j);
        RefusesIff(nodes, j);
        assert IsSlide(nodes[i]);
      }
    } else {
      var j :| 0 <= j < |nodes| && Refuses(nodes, j);
      RefusesIff(nodes, j);
      if NamedSlide(nodes[j]) {
        var i :| 0 <= i < j && IsSlide(nodes[i]) && nodes[i].slideId == nodes[j].slideId;
        assert IsSlide(nodes[i]) ==> !Nameless(nodes[i]);
      }
    }
  }

  // ---------------------------------------------------------------- no two children share a key

  /** The element that gives `j` its upcoming id. */
  lemma {:induction false} UpcomingIsThere(nodes: seq<Node>, j: nat) returns (p: nat)
    requires j <= |nodes| && Upcoming(nodes, j).Some?
    ensures j <= p < |nodes| && IsSlide(nodes[p]) && nodes[p].slideId == Upcoming(nodes, j)
    ensures forall k :: j <= k < p ==> !nodes[k].Element?
    decreases |nodes| - j
  {
    if nodes[j].Element? { p := j; } else { p := UpcomingIsThere(nodes, j + 1); }
  }

  lemma UpcomingIsValid(nodes: seq<Node>, j: nat)
    requires j <= |nodes| && Accepted(nodes) && Upcoming(nodes, j).Some?
    ensures IsSlideId(Upcoming(nodes, j).value)
  {
    var p := UpcomingIsThere(nodes, j);
    assert !Refuses(nodes, p);
  }

  lemma {:induction false} EarlierGrows(nodes: seq<Node>, i: nat, j: nat)
    requires i < j <= |nodes| && IsBlank(nodes[i])
    ensures Earlier(nodes, i, Base(nodes, i)) < Earlier(nodes, j, Base(nodes, i))
  {
    if i + 1 < j { EarlierGrows(nodes, i, j - 1); }
  }

  lemma NumberedInjective(base: string, m: nat, n: nat)
    requires Numbered(base, m) == Numbered(base, n)
    ensures m == n
  {
    var h := base + ":";
    if m != 0 && n != 0 {
      assert Numbered(base, m)[|h|..] == Decimal(m) && Numbered(base, n)[|h|..] == Decimal(n);
      DecimalInjective(m, n);
    }
  }

  /** "omid-ws:aux" or "omid-ws:" and a slide id. */
  predicate IsBase(b: string) {
    b == "omid-ws:aux" || (|b| == 16 && b[..8] == "omid-ws:" && IsSlideId(b[8..]))
  }

  lemma BaseIsBase(nodes: seq<Node>, j: nat)
    requires j <= |nodes| && Accepted(nodes)
    ensures IsBase(Base(nodes, j))
  {
    var u := Upcoming(nodes, j);
    if u.Some? {
      UpcomingIsValid(nodes, j);
      var b := "omid-ws:" + u.value;
      assert b[..8] == "omid-ws:" && b[8..] == u.value;
    }
  }

  lemma NumberedStarts(b: string, n: nat)
    ensures |Numbered(b, n)| >= |b| && Numbered(b, n)[..|b|] == b
    ensures |Numbered(b, n)| > |b| ==> Numbered(b, n)[|b|] == ':'
  {}

  /** A number never turns one base into another. */
  lemma BasesStayApart(b: string, m: nat, c: string, n: nat)
    requires IsBase(b) && IsBase(c) && Numbered(b, m) == Numbered(c, n)
    ensures b == c
  {
    NumberedStarts(b, m);
    NumberedStarts(c, n);
    var s := Numbered(b, m);
    if |b| == |c| {
    } else if |b| == 11 {
      HexAt(c, s);
    } else {
      HexAt(b, s);
    }
  }

  lemma HexAt(b: string, s: string)
    requires IsBase(b) && |b| == 16 && |s| >= 16 && s[..16] == b
    ensures s[11] != ':'
  {
    assert s[11] == b[11] == b[8..][3];
  }

  lemma SpaceKeysDiffer(nodes: seq<Node>, i: nat, j: nat)
    requires Accepted(nodes) && i < j < |nodes| && nodes[i].TextNode? && nodes[j].TextNode?
    ensures KeyFor(nodes, i) != KeyFor(nodes, j)
  {
    var b, c := Base(nodes, i), Base(nodes, j);
    assert !Refuses(nodes, i) && !Refuses(nodes, j);
    if KeyFor(nodes, i) == KeyFor(nodes, j) {
      BaseIsBase(nodes, i);
      BaseIsBase(nodes, j);
      BasesStayApart(b, Earlier(nodes, i, b), c, Earlier(nodes, j, c));
      NumberedInjective(b, Earlier(nodes, i, b), Earlier(nodes, j, b));
      EarlierGrows(nodes, i, j);
    }
  }

  lemma SlideKeysDiffer(nodes: seq<Node>, i: nat, j: nat)
    requires Accepted(nodes) && i < j < |nodes| && IsSlide(nodes[i]) && IsSlide(nodes[j])
    ensures KeyFor(nodes, i).Name? && KeyFor(nodes, j).Name? && KeyFor(nodes, i) != KeyFor(nodes, j)
  {
    assert !Refuses(nodes, i) && !Refuses(nodes, j);
    IdIsBefore(nodes, i, j);
    var v, w := nodes[i].slideId.value, nodes[j].slideId.value;
    assert ("omid:" + v)[5..] == v && ("omid:" + w)[5..] == w;
  }

  /** The two kinds of name and the numbers part at their first five characters. */
  lemma KindsApart(nodes: seq<Node>, j: nat)
    requires Accepted(nodes) && j < |nodes|
    ensures var s := AsReactString(KeyFor(nodes, j));
            if nodes[j].TextNode? then |s| >= 5 && s[0] == 'o' && s[4] == '-'
            else if IsSlide(nodes[j]) then |s| >= 5 && s[0] == 'o' && s[4] == ':'
            else |s| >= 1 && IsDigit(s[0])
  {
    assert !Refuses(nodes, j);
    if nodes[j].TextNode? {
      var b := Base(nodes, j);
      BaseIsBase(nodes, j);
      NumberedStarts(b, Earlier(nodes, j, b));
      assert b[..5] == "omid-";
      var s := Numbered(b, Earlier(nodes, j, b));
      assert s[0] == b[0] == b[..5][0] && s[4] == b[4] == b[..5][4];
    }
  }

  /** Whenever keys are returned no two children share one, even though React compares an index with a name
      as strings. */
  lemma KeysAreDistinct(nodes: seq<Node>, i: nat, j: nat)
    requires Accepted(nodes) && i < j < |nodes|
    ensures AsReactString(KeyFor(nodes, i)) != AsReactString(KeyFor(nodes, j))
  {
    KindsApart(nodes, i);
    KindsApart(nodes, j);
    assert !Refuses(nodes, i) && !Refuses(nodes, j);
    if nodes[i].TextNode? && nodes[j].TextNode? {
      SpaceKeysDiffer(nodes, i, j);
    } else if IsSlide(nodes[i]) && IsSlide(nodes[j]) {
      SlideKeysDiffer(nodes, i, j);
    } else if KeyFor(nodes, i).Index? && KeyFor(nodes, j).Index? {
      if Decimal(i) == Decimal(j) { DecimalInjective(i, j); }
    }
  }

  // ---------------------------------------------------------------- keys travel with their slide

  lemma NotItsBase(nodes: seq<Node>, j: nat, q: nat, p: nat)
    requires j <= q < p < |nodes| && Accepted(nodes) && IsSlide(nodes[p]) && nodes[q].Element?
    ensures nodes[p].slideId.Some? && Base(nodes, j) != "omid-ws:" + nodes[p].slideId.value
  {
    assert !Refuses(nodes, p);
    var v := nodes[p].slideId.value;
    if Base(nodes, j) == "omid-ws:" + v {
      BaseNames(nodes, j, v);
      var r := UpcomingIsThere(nodes, j);
      IdIsBefore(nodes, r, p);
    }
  }

  lemma {:induction false} NoneEarlier(nodes: seq<Node>, j: nat, q: nat, p: nat)
    requires j <= q < p < |nodes| && Accepted(nodes) && IsSlide(nodes[p]) && nodes[q].Element?
    ensures nodes[p].slideId.Some? && Earlier(nodes, j, "omid-ws:" + nodes[p].slideId.value) == 0
  {
    NotItsBase(nodes, q, q, p);
    if j > 0 {
      NoneEarlier(nodes, j - 1, q, p);
      NotItsBase(nodes, j - 1, q, p);
    }
  }

  lemma BaseNames(nodes: seq<Node>, j: nat, v: string)
    requires j <= |nodes| && IsSlideId(v) && Base(nodes, j) == "omid-ws:" + v
    ensures Upcoming(nodes, j) == Some(v)
  {
    var u := Upcoming(nodes, j);
    assert |Base(nodes, j)| == 16;
    assert u.Some? && u.value == Base(nodes, j)[8..] == v;
  }

  /** A whitespace child between an element (or the start) and a slide, and that slide, are keyed by the slide's
      id alone: whatever is inserted, removed or moved elsewhere, the pair keeps its two keys. */
  lemma PairKeepsItsKeys(nodes: seq<Node>, j: nat)
    requires Accepted(nodes) && j + 1 < |nodes|
    requires nodes[j].TextNode? && IsSlide(nodes[j + 1]) && (j == 0 || nodes[j - 1].Element?)
    ensures nodes[j + 1].slideId.Some?
    ensures KeyFor(nodes, j) == Name("omid-ws:" + nodes[j + 1].slideId.value)
    ensures KeyFor(nodes, j + 1) == Name("omid:" + nodes[j + 1].slideId.value)
  {
    assert !Refuses(nodes, j + 1) && !Refuses(nodes, j);
    var v := nodes[j + 1].slideId.value;
    assert Upcoming(nodes, j) == Upcoming(nodes, j + 1) == Some(v);
    if j > 0 {
      NoneEarlier(nodes, j - 1, j - 1, j + 1);
    }
    assert Earlier(nodes, j, "omid-ws:" + v) == 0;
  }
}
