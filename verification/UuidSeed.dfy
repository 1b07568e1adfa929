/** The deterministic id of an order (apps/mobile/src/util.ts): a seed mixed into four 32-bit words, printed as a
    version 4 UUID. Words are natural numbers with their wrap-around written out. */
module UuidSeed {

  const MODULUS: nat := 0x1_0000_0000

  type Word = n: nat | n < MODULUS
  /** A UTF-16 code unit, as charCodeAt gives it. */
  type Unit = n: nat | n < 0x1_0000

  const BASIS: Word := 0x811c9dc5

  // ---------------------------------------------------------------- mixing

  /** Bit by bit. */
  function Xor(a: nat, b: nat): nat
    decreases a + b
  {
    if a == 0 && b == 0 then 0 else 2 * Xor(a / 2, b / 2) + (a + b) % 2
  }

  function Pow2(n: nat): (p: nat)
    ensures p >= 1
  {
    if n == 0 then 1 else 2 * Pow2(n - 1)
  }

  /** What a unit does to its own word, Math.imul(word ^ unit, 0x01000193) >>> 0 ... */
  function Own(word: Word, unit: Unit): Word {
    (Xor(word, unit) * 0x01000193) % MODULUS
  }

  /** ... and to the next, (word + (unit << i % 24)) >>> 0. */
  function Next(word: Word, unit: Unit, i: nat): Word {
    (word + unit * Pow2(i % 24)) % MODULUS
  }

  function Mixed(words: seq<Word>, i: nat, unit: Unit): (r: seq<Word>)
    requires |words| == 4
    ensures |r| == 4
  {
    var w, nw := i % 4, (i % 4 + 1) % 4;
    words[w := Own(words[w], unit)][nw := Next(words[nw], unit, i)]
  }

  function Words(seed: seq<Unit>): (r: seq<Word>)
    ensures |r| == 4
  {
    if seed == [] then [BASIS, BASIS, BASIS, BASIS]
    else Mixed(Words(seed[..|seed| - 1]), |seed| - 1, seed[|seed| - 1])
  }

  /** The exclusive or stays within 32 bits: only the multiplication wraps. */
  lemma {:induction false} XorFits(a: nat, b: nat, n: nat)
    requires a < Pow2(n) && b < Pow2(n)
    ensures Xor(a, b) < Pow2(n)
  {
    if n > 0 { XorFits(a / 2, b / 2, n - 1); }
  }

  // ---------------------------------------------------------------- printing

  const HEX := "0123456789abcdef"

  function HexChar(d: nat): char
    requires d < 16
  {
    HEX[d]
  }

  predicate IsLowerHex(c: char) {
    '0' <= c <= '9' || 'a' <= c <= 'f'
  }

  /** parseInt(c, 16) of one digit. */
  function HexValue(c: char): (d: nat)
    requires IsLowerHex(c)
    ensures d < 16
  {
    if c <= '9' then c as int - '0' as int else 10 + (c as int - 'a' as int)
  }

  lemma HexReadsBack(d: nat)
    requires d < 16
    ensures IsLowerHex(HexChar(d)) && HexValue(HexChar(d)) == d
  {
    assert d == 0 || d == 1 || d == 2 || d == 3 || d == 4 || d == 5 || d == 6 || d == 7
        || d == 8 || d == 9 || d == 10 || d == 11 || d == 12 || d == 13 || d == 14 || d == 15;
  }

  /** w.toString(16) */
  function HexOf(w: nat): (s: string)
    ensures s != ""
  {
    if w < 16 then [HexChar(w)] else HexOf(w / 16) + [HexChar(w % 16)]
  }

  function Zeros(n: nat): (s: string)
    ensures |s| == n && forall k :: 0 <= k < n ==> s[k] == '0'
  {
    seq(n, _ => '0')
  }

  function PadStart(s: string, n: nat): string {
    if |s| >= n then s else Zeros(n - |s|) + s
  }

  /** The last `n` hex digits. */
  function Low(w: nat, n: nat): (s: string)
    ensures |s| == n
  {
    if n == 0 then "" else Low(w / 16, n - 1) + [HexChar(w % 16)]
  }

  function Pow16(n: nat): (p: nat)
    ensures p >= 1
  {
    if n == 0 then 1 else 16 * Pow16(n - 1)
  }

  lemma {:induction false} LowOfZero(n: nat)
    ensures Low(0, n) == Zeros(n)
  {
    if n > 0 {
      LowOfZero(n - 1);
      assert Zeros(n) == Zeros(n - 1) + ['0'];
    }
  }

  /** Printing without leading zeros and padding is printing a fixed number of digits. */
  lemma {:induction false} PaddedIsLow(w: nat, n: nat)
    requires n >= 1 && w < Pow16(n)
    ensures |HexOf(w)| <= n && PadStart(HexOf(w), n) == Low(w, n)
  {
    if w < 16 {
      OneDigit(w, n);
    } else {
      assert Pow16(n) == 16 * Pow16(n - 1);
      PaddedIsLow(w / 16, n - 1);
      PadSnoc(HexOf(w / 16), n - 1, HexChar(w % 16));
    }
  }

  lemma OneDigit(w: nat, n: nat)
    requires w < 16 && n >= 1
    ensures |HexOf(w)| <= n && PadStart(HexOf(w), n) == Low(w, n)
  {
    LowOfZero(n - 1);
    assert w / 16 == 0;
    assert Low(w, n) == Zeros(n - 1) + [HexChar(w)];
  }

  lemma PadSnoc(s: string, n: nat, c: char)
    requires |s| <= n
    ensures PadStart(s + [c], n + 1) == PadStart(s, n) + [c]
  {}

  lemma Powers()
    ensures Pow16(1) == 16 && Pow16(3) == 0x1000 && Pow16(4) == 0x1_0000 && Pow16(7) == 0x1000_0000 && Pow16(8) == MODULUS
  {
    assert Pow16(2) == 0x100;
    assert Pow16(5) == 0x10_0000;
    assert Pow16(6) == 0x100_0000;
  }

  /** A word prints as its eight digits. */
  lemma WordPrints(w: Word)
    ensures PadStart(HexOf(w), 8) == Low(w, 8)
  {
    Powers();
    PaddedIsLow(w, 8);
  }

  lemma HexCharInjective(a: nat, b: nat)
    requires a < 16 && b < 16 && HexChar(a) == HexChar(b)
    ensures a == b
  {
    HexReadsBack(a);
    HexReadsBack(b);
  }

  lemma {:induction false} LowIsHex(w: nat, n: nat)
    ensures forall k :: 0 <= k < n ==> IsLowerHex(Low(w, n)[k])
  {
    if n > 0 {
      LowIsHex(w / 16, n - 1);
      HexReadsBack(w % 16);
    }
  }

  // ---------------------------------------------------------------- the id

  /** (d & 3) | 8: two bits kept, the upper two set to 10. */
  function Variant(d: nat): (v: nat)
    ensures v < 16
  {
    8 + d % 4
  }

  function Stamped(chars: string): (s: string)
    requires |chars| == 32 && IsLowerHex(chars[16])
    ensures |s| == 32
  {
    chars[12 := '4'][16 := HexChar(Variant(HexValue(chars[16])))]
  }

  function Hyphenated(s: string): (r: string)
    requires |s| == 32
    ensures |r| == 36
  {
    s[..8] + "-" + s[8..12] + "-" + s[12..16] + "-" + s[16..20] + "-" + s[20..]
  }

  function Printed(words: seq<Word>): (s: string)
    requires |words| == 4
    ensures |s| == 32
  {
    Low(words[0], 8) + Low(words[1], 8) + Low(words[2], 8) + Low(words[3], 8)
  }

  lemma PrintedIsHex(words: seq<Word>)
    requires |words| == 4
    ensures forall k :: 0 <= k < 32 ==> IsLowerHex(Printed(words)[k])
  {
    LowIsHex(words[0], 8);
    LowIsHex(words[1], 8);
    LowIsHex(words[2], 8);
    LowIsHex(words[3], 8);
    FourPieces(Low(words[0], 8), Low(words[1], 8), Low(words[2], 8), Low(words[3], 8));
  }

  lemma FourPieces(a: string, b: string, c: string, d: string)
    requires |a| == |b| == |c| == |d| == 8
    ensures var s := a + b + c + d;
            forall k :: 0 <= k < 32 ==> s[k] == (if k < 8 then a[k] else if k < 16 then b[k - 8] else if k < 24 then c[k - 16] else d[k - 24])
  {}

  function IdOf(words: seq<Word>): (id: string)
    requires |words| == 4
    ensures |id| == 36
  {
    PrintedIsHex(words);
    Hyphenated(Stamped(Printed(words)))
  }

  method UuidV4FromSeed(seed: seq<Unit>) returns (id: string)
    ensures id == IdOf(Words(seed))
  {
    var words := new Word[4](_ => BASIS);
    assert words[..] == [BASIS, BASIS, BASIS, BASIS];
    for i := 0 to |seed|
      invariant words[..] == Words(seed[..i])
    {
      MixInto(words, i, seed[i]);
      WordsSnoc(seed, i);
    }
    assert seed[..|seed|] == seed;
    id := Stamp(words[..]);
  }

  method MixInto(words: array<Word>, i: nat, unit: Unit)
    requires words.Length == 4
    modifies words
    ensures words[..] == Mixed(old(words[..]), i, unit)
  {
    var w := i % 4;
    var nw := (w + 1) % 4;
    words[w] := Own(words[w], unit);
    words[nw] := Next(words[nw], unit, i);
  }

  lemma WordsSnoc(seed: seq<Unit>, i: nat)
    requires i < |seed|
    ensures Words(seed[..i + 1]) == Mixed(Words(seed[..i]), i, seed[i])
  {
    assert seed[..i + 1][..i] == seed[..i];
  }

  /** The words as text, with the version and variant digits stamped in place. */
  method Stamp(words: seq<Word>) returns (id: string)
    requires |words| == 4
    ensures id == IdOf(words)
  {
    WordPrints(words[0]);
    WordPrints(words[1]);
    WordPrints(words[2]);
    WordPrints(words[3]);
    var text := PadStart(HexOf(words[0]), 8) + PadStart(HexOf(words[1]), 8)
              + PadStart(HexOf(words[2]), 8) + PadStart(HexOf(words[3]), 8);
    assert text == Printed(words);
    PrintedIsHex(words);
    var chars := new char[32](k requires 0 <= k < 32 => text[k]);
    assert chars[..] == text;
    chars[12] := '4';
    chars[16] := HexChar(Variant(HexValue(chars[16])));
    var s := chars[..];
    assert s == Stamped(text);
    id := s[..8] + "-" + s[8..12] + "-" + s[12..16] + "-" + s[16..20] + "-" + s[20..32];
    assert s[20..32] == s[20..];
  }

  // ---------------------------------------------------------------- every id is a version 4 UUID

  lemma HyphenatedAt(s: string)
    requires |s| == 32
    ensures var r := Hyphenated(s);
            && r[8] == r[13] == r[18] == r[23] == '-' && r[14] == s[12] && r[19] == s[16]
            && forall k :: 0 <= k < 36 && k != 8 && k != 13 && k != 18 && k != 23 ==>
                 r[k] == s[if k < 8 then k else if k < 13 then k - 1 else if k < 18 then k - 2 else if k < 23 then k - 3 else k - 4]
  {}

  lemma VariantDigits(d: nat)
    ensures var c := HexChar(Variant(d)); c == '8' || c == '9' || c == 'a' || c == 'b'
  {
    assert Variant(d) == 8 || Variant(d) == 9 || Variant(d) == 10 || Variant(d) == 11;
  }

  /** Sections 4.1.1 and 4.1.3 of RFC 4122: 36 characters, lower-case hex but for the four hyphens, version 4,
      variant 8 to b; whatever the seed. */
  lemma IdIsVersion4(seed: seq<Unit>)
    ensures var id := IdOf(Words(seed));
            && |id| == 36 && id[8] == id[13] == id[18] == id[23] == '-'
            && (forall k :: 0 <= k < 36 && k != 8 && k != 13 && k != 18 && k != 23 ==> IsLowerHex(id[k]))
            && id[14] == '4' && (id[19] == '8' || id[19] == '9' || id[19] == 'a' || id[19] == 'b')
  {
    var text := Printed(Words(seed));
    PrintedIsHex(Words(seed));
    HyphenatedAt(Stamped(text));
    VariantDigits(HexValue(text[16]));
  }

  // ---------------------------------------------------------------- what an id tells about the words

  /** The bits that the stamping leaves: all of the outer words, all but bits 12 to 15 of the second, and the low
      30 of the third. */
  predicate SameButStamps(u: seq<Word>, v: seq<Word>)
    requires |u| == 4 && |v| == 4
  {
    && u[0] == v[0] && u[3] == v[3]
    && u[1] / 0x1_0000 == v[1] / 0x1_0000 && u[1] % 0x1000 == v[1] % 0x1000
    && u[2] % 0x4000_0000 == v[2] % 0x4000_0000
  }

  lemma HyphenatedInjective(s: string, t: string)
    requires |s| == 32 && |t| == 32
    ensures Hyphenated(s) == Hyphenated(t) <==> s == t
  {
    HyphenatedAt(s);
    HyphenatedAt(t);
    if Hyphenated(s) == Hyphenated(t) {
      var r, q := Hyphenated(s), Hyphenated(t);
      forall k | 0 <= k < 32 ensures s[k] == t[k] {
        var p := if k < 8 then k else if k < 12 then k + 1 else if k < 16 then k + 2 else if k < 20 then k + 3 else k + 4;
        assert r[p] == q[p];
      }
    }
  }

  lemma SnocEqual(s: string, t: string, c: char, d: char)
    requires |s| == |t|
    ensures s + [c] == t + [d] <==> s == t && c == d
  {
    assert (s + [c])[..|s|] == s && (t + [d])[..|t|] == t;
    assert (s + [c])[|s|] == c && (t + [d])[|t|] == d;
  }

  /** Equal digits, equal numbers. */
  lemma {:induction false} LowsEqualIff(x: nat, y: nat, n: nat)
    requires x < Pow16(n) && y < Pow16(n)
    ensures Low(x, n) == Low(y, n) <==> x == y
  {
    if n > 0 {
      assert Pow16(n) == 16 * Pow16(n - 1);
      LowsEqualIff(x / 16, y / 16, n - 1);
      SnocEqual(Low(x / 16, n - 1), Low(y / 16, n - 1), HexChar(x % 16), HexChar(y % 16));
      if HexChar(x % 16) == HexChar(y % 16) { HexCharInjective(x % 16, y % 16); }
    }
  }

  lemma ModIs(x: nat, m: nat, q: nat, r: nat)
    requires x == m * q + r && r < m
    ensures x % m == r && x / m == q
  {
    var p, t := x / m, x % m;
    assert x == m * p + t;
    assert m * (p - q) == m * p - m * q;
    SmallMultiple(m, p - q, r - t);
  }

  lemma SmallMultiple(m: int, e: int, d: int)
    requires m * e == d && -m < d < m
    ensures e == 0
  {
    Grows(m, e);
  }

  lemma Grows(m: int, e: int)
    ensures m >= 0 && e >= 1 ==> m * e >= m
    ensures m >= 0 && e <= -1 ==> m * e <= -m
  {}

  lemma ModOfQuotient(x: nat, p: nat)
    requires p >= 1
    ensures (x % (16 * p)) / 16 == (x / 16) % p && (x % (16 * p)) % 16 == x % 16 && (x % (16 * p)) / 16 < p
  {
    var q, r := x / (16 * p), x % (16 * p);
    assert x == 16 * p * q + r == 16 * (p * q) + r;
    assert x / 16 == p * q + r / 16;
    ModIs(x / 16, p, q, r / 16);
  }

  /** The last digits are those of the remainder. */
  lemma {:induction false} LowOfMod(x: nat, n: nat)
    ensures Low(x, n) == Low(x % Pow16(n), n)
  {
    if n > 0 {
      var p := Pow16(n - 1);
      ModOfQuotient(x, p);
      LowOfMod(x / 16, n - 1);
    }
  }

  lemma TailsEqualIff(x: nat, y: nat, n: nat)
    ensures Low(x, n) == Low(y, n) <==> x % Pow16(n) == y % Pow16(n)
  {
    LowOfMod(x, n);
    LowOfMod(y, n);
    LowsEqualIff(x % Pow16(n), y % Pow16(n), n);
  }

  /** Without the last `m` digits. */
  function Drop(w: nat, m: nat): nat {
    if m == 0 then w else Drop(w / 16, m - 1)
  }

  lemma {:induction false} LowSplits(w: nat, n: nat, m: nat)
    ensures Low(w, n + m) == Low(Drop(w, m), n) + Low(w, m)
  {
    if m > 0 {
      LowSplits(w / 16, n, m - 1);
      LowSnoc(w, n + m);
      LowSnoc(w, m);
      RegroupText(Low(Drop(w, m), n), Low(w / 16, m - 1), [HexChar(w % 16)]);
    }
  }

  lemma LowSnoc(w: nat, n: nat)
    requires n > 0
    ensures Low(w, n) == Low(w / 16, n - 1) + [HexChar(w % 16)]
  {}

  lemma RegroupText(a: string, b: string, c: string)
    ensures (a + b) + c == a + (b + c)
  {}

  lemma {:induction false} DropSnoc(w: nat, m: nat)
    ensures Drop(w, m + 1) == Drop(w, m) / 16
  {
    if m > 0 { DropSnoc(w / 16, m - 1); }
  }

  lemma DropsAre(w: nat)
    ensures Drop(w, 3) == w / 0x1000 && Drop(w, 4) == w / 0x1_0000 && Drop(w, 7) == w / 0x1000_0000
  {
    DropSnoc(w, 0);
    DropSnoc(w, 1);
    DropSnoc(w, 2);
    DropSnoc(w, 3);
    DropSnoc(w, 4);
    DropSnoc(w, 5);
    DropSnoc(w, 6);
  }

  lemma PlainWord(x: Word, y: Word)
    ensures Low(x, 8) == Low(y, 8) <==> x == y
  {
    Powers();
    LowsEqualIff(x, y, 8);
  }

  lemma VersionText(x: Word)
    ensures Low(x, 8)[4 := '4'] == Low(x / 0x1_0000, 4) + ['4'] + Low(x, 3)
  {
    DropsAre(x);
    LowSplits(x, 4, 4);
    LowSplits(x, 1, 3);
  }

  lemma TextAround(a: string, b: string, p: string, q: string)
    requires |a| == |b| && |p| == |q|
    ensures a + ['4'] + p == b + ['4'] + q <==> a == b && p == q
  {
    assert (a + ['4'] + p)[..|a|] == a && (b + ['4'] + q)[..|b|] == b;
    assert (a + ['4'] + p)[|a| + 1..] == p && (b + ['4'] + q)[|b| + 1..] == q;
  }

  /** The word with the version digit. */
  lemma VersionWord(x: Word, y: Word)
    ensures Low(x, 8)[4 := '4'] == Low(y, 8)[4 := '4'] <==> x / 0x1_0000 == y / 0x1_0000 && x % 0x1000 == y % 0x1000
  {
    VersionText(x);
    VersionText(y);
    Powers();
    LowsEqualIff(x / 0x1_0000, y / 0x1_0000, 4);
    TailsEqualIff(x, y, 3);
    TextAround(Low(x / 0x1_0000, 4), Low(y / 0x1_0000, 4), Low(x, 3), Low(y, 3));
  }

  function VariantText(x: Word): string {
    [HexChar(Variant(x / 0x1000_0000))] + Low(x, 7)
  }

  lemma VariantTextIs(x: Word)
    ensures IsLowerHex(Low(x, 8)[0]) && Low(x, 8)[0 := HexChar(Variant(HexValue(Low(x, 8)[0])))] == VariantText(x)
  {
    DropsAre(x);
    LowSplits(x, 1, 7);
    var top := x / 0x1000_0000;
    HexReadsBack(top);
    assert Low(top, 1) == Low(top / 16, 0) + [HexChar(top % 16)] == [HexChar(top)];
  }

  /** The word with the variant digit. */
  lemma VariantWord(x: Word, y: Word)
    ensures VariantText(x) == VariantText(y) <==> x % 0x4000_0000 == y % 0x4000_0000
  {
    Powers();
    TailsEqualIff(x, y, 7);
    var a, b := Variant(x / 0x1000_0000), Variant(y / 0x1000_0000);
    HeadEqual(HexChar(a), HexChar(b), Low(x, 7), Low(y, 7));
    if HexChar(a) == HexChar(b) { HexCharInjective(a, b); }
    TopBits(x);
    TopBits(y);
  }

  lemma HeadEqual(c: char, d: char, s: string, t: string)
    ensures [c] + s == [d] + t <==> c == d && s == t
  {
    assert ([c] + s)[0] == c && ([d] + t)[0] == d && ([c] + s)[1..] == s && ([d] + t)[1..] == t;
  }

  lemma TopBits(x: Word)
    ensures x % 0x4000_0000 == 0x1000_0000 * ((x / 0x1000_0000) % 4) + x % 0x1000_0000
  {}

  lemma StampedPieces(words: seq<Word>)
    requires |words| == 4
    ensures IsLowerHex(Printed(words)[16])
    ensures Stamped(Printed(words)) == Low(words[0], 8) + Low(words[1], 8)[4 := '4'] + VariantText(words[2]) + Low(words[3], 8)
  {
    PrintedIsHex(words);
    VariantTextIs(words[2]);
    var a, b, c, d := Low(words[0], 8), Low(words[1], 8), Low(words[2], 8), Low(words[3], 8);
    FourPieces(a, b, c, d);
    var v := HexChar(Variant(HexValue(c[0])));
    FourPieces(a, b[4 := '4'], c[0 := v], d);
    var s, t := Stamped(Printed(words)), a + b[4 := '4'] + c[0 := v] + d;
    assert forall k :: 0 <= k < 32 ==> s[k] == t[k];
  }

  lemma PiecesEqual(a: string, b: string, c: string, d: string, a': string, b': string, c': string, d': string)
    requires |a| == |b| == |c| == |d| == |a'| == |b'| == |c'| == |d'| == 8
    ensures a + b + c + d == a' + b' + c' + d' <==> a == a' && b == b' && c == c' && d == d'
  {
    var s, t := a + b + c + d, a' + b' + c' + d';
    assert s[..8] == a && s[8..16] == b && s[16..24] == c && s[24..] == d;
    assert t[..8] == a' && t[8..16] == b' && t[16..24] == c' && t[24..] == d';
  }

  /** Two seeds get one id exactly when their words agree in every bit but the six that are stamped over. */
  lemma SameIdIff(u: seq<Word>, v: seq<Word>)
    requires |u| == 4 && |v| == 4
    ensures IdOf(u) == IdOf(v) <==> SameButStamps(u, v)
  {
    StampedPieces(u);
    StampedPieces(v);
    HyphenatedInjective(Stamped(Printed(u)), Stamped(Printed(v)));
    PiecesEqual(Low(u[0], 8), Low(u[1], 8)[4 := '4'], VariantText(u[2]), Low(u[3], 8),
                Low(v[0], 8), Low(v[1], 8)[4 := '4'], VariantText(v[2]), Low(v[3], 8));
    PlainWord(u[0], v[0]);
    VersionWord(u[1], v[1]);
    VariantWord(u[2], v[2]);
    PlainWord(u[3], v[3]);
  }

  // ---------------------------------------------------------------- one changed unit always shows

  lemma {:induction false} XorInjective(x: nat, y: nat, c: nat)
    requires Xor(x, c) == Xor(y, c)
    ensures x == y
  {
    if !(x == 0 && y == 0) {
      XorHalves(x, c);
      XorHalves(y, c);
      XorInjective(x / 2, y / 2, c / 2);
    }
  }

  lemma XorHalves(x: nat, c: nat)
    ensures Xor(x, c) / 2 == Xor(x / 2, c / 2) && Xor(x, c) % 2 == (x + c) % 2
  {}

  lemma {:induction false} XorSymmetric(x: nat, c: nat)
    ensures Xor(x, c) == Xor(c, x)
    decreases x + c
  {
    if !(x == 0 && c == 0) { XorSymmetric(x / 2, c / 2); }
  }

  /** The multiplier is odd, so multiplying by it loses nothing: 0x359c449b undoes it. */
  lemma Unmultiply(a: Word, b: Word)
    requires (a * 0x01000193) % MODULUS == (b * 0x01000193) % MODULUS
    ensures a == b
  {
    Undone(a);
    Undone(b);
  }

  lemma Undone(a: Word)
    ensures ((a * 0x01000193) % MODULUS * 0x359c449b) % MODULUS == a
  {
    var q := (a * 0x01000193) / MODULUS;
    assert (a * 0x01000193) % MODULUS == a * 0x01000193 - MODULUS * q;
    assert 0x01000193 * 0x359c449b == 1 + MODULUS * 3513497;
  }

  lemma OwnInjective(x: Word, y: Word, c: Unit)
    requires Own(x, c) == Own(y, c)
    ensures x == y
  {
    XorIsWord(x, c);
    XorIsWord(y, c);
    Unmultiply(Xor(x, c), Xor(y, c));
    XorInjective(x, y, c);
  }

  lemma XorIsWord(x: Word, c: Unit)
    ensures Xor(x, c) < MODULUS
  {
    assert Pow2(8) == 0x100 && Pow2(16) == 0x1_0000 && Pow2(24) == 0x100_0000 && Pow2(32) == MODULUS;
    XorFits(x, c, 32);
  }

  lemma NextInjective(x: Word, y: Word, c: Unit, i: nat)
    requires Next(x, c, i) == Next(y, c, i)
    ensures x == y
  {
    AddInjective(x, y, c * Pow2(i % 24));
  }

  lemma AddInjective(x: Word, y: Word, k: nat)
    requires (x + k) % MODULUS == (y + k) % MODULUS
    ensures x == y
  {}

  lemma OwnTellsUnit(x: Word, c: Unit, d: Unit)
    requires Own(x, c) == Own(x, d)
    ensures c == d
  {
    XorIsWord(x, c);
    XorIsWord(x, d);
    Unmultiply(Xor(x, c), Xor(x, d));
    XorSymmetric(x, c);
    XorSymmetric(x, d);
    XorInjective(c, d, x);
  }

  /** A step can be undone: the same unit never brings two states together ... */
  lemma MixedInjective(u: seq<Word>, v: seq<Word>, i: nat, c: Unit)
    requires |u| == 4 && |v| == 4 && Mixed(u, i, c) == Mixed(v, i, c)
    ensures u == v
  {
    var w, nw := i % 4, (i % 4 + 1) % 4;
    var p, q := Mixed(u, i, c), Mixed(v, i, c);
    assert p[w] == Own(u[w], c) && q[w] == Own(v[w], c);
    OwnInjective(u[w], v[w], c);
    assert p[nw] == Next(u[nw], c, i) && q[nw] == Next(v[nw], c, i);
    NextInjective(u[nw], v[nw], c, i);
    forall k | 0 <= k < 4 ensures u[k] == v[k] {
      if k != w && k != nw { assert p[k] == u[k] && q[k] == v[k]; }
    }
  }

  /** ... and two units never take one state to the same place. */
  lemma MixedTellsUnit(u: seq<Word>, i: nat, c: Unit, d: Unit)
    requires |u| == 4 && Mixed(u, i, c) == Mixed(u, i, d)
    ensures c == d
  {
    var w := i % 4;
    assert Mixed(u, i, c)[w] == Own(u[w], c) && Mixed(u, i, d)[w] == Own(u[w], d);
    OwnTellsUnit(u[w], c, d);
  }

  ghost predicate OneChange(s: seq<Unit>, t: seq<Unit>, i: nat) {
    |s| == |t| && i < |s| && s[i] != t[i] && forall k :: 0 <= k < |s| && k != i ==> s[k] == t[k]
  }

  /** Two seeds of one length that differ in exactly one unit, wherever it is, never mix to the same words. */
  lemma {:induction false} OneChangeAlwaysShows(s: seq<Unit>, t: seq<Unit>, i: nat)
    requires OneChange(s, t, i)
    ensures Words(s) != Words(t)
  {
    var n := |s| - 1;
    if i == n {
      assert s[..n] == t[..n];
      if Words(s) == Words(t) { MixedTellsUnit(Words(s[..n]), n, s[n], t[n]); }
    } else {
      OneChangeAlwaysShows(s[..n], t[..n], i);
      if Words(s) == Words(t) { MixedInjective(Words(s[..n]), Words(t[..n]), n, s[n]); }
    }
  }

  // ---------------------------------------------------------------- when one changed unit changes the id

  /** The same unit keeps a word apart from another: each word goes its own way. */
  lemma MixedKeepsApart(u: seq<Word>, v: seq<Word>, i: nat, c: Unit, w: nat)
    requires |u| == 4 && |v| == 4 && w < 4 && u[w] != v[w]
    ensures Mixed(u, i, c)[w] != Mixed(v, i, c)[w]
  {
    var own, nw := i % 4, (i % 4 + 1) % 4;
    if w == own && Own(u[w], c) == Own(v[w], c) { OwnInjective(u[w], v[w], c); }
    if w == nw && Next(u[w], c, i) == Next(v[w], c, i) { NextInjective(u[w], v[w], c, i); }
  }

  /** A changed unit changes the word of its own position, whatever follows ... */
  lemma {:induction false} OwnWordDiffers(s: seq<Unit>, t: seq<Unit>, i: nat)
    requires OneChange(s, t, i)
    ensures Words(s)[i % 4] != Words(t)[i % 4]
  {
    var n := |s| - 1;
    if i == n {
      assert s[..n] == t[..n];
      var u := Words(s[..n]);
      if Own(u[i % 4], s[n]) == Own(u[i % 4], t[n]) { OwnTellsUnit(u[i % 4], s[n], t[n]); }
    } else {
      OwnWordDiffers(s[..n], t[..n], i);
      MixedKeepsApart(Words(s[..n]), Words(t[..n]), n, s[n], i % 4);
    }
  }

  lemma {:induction false} Pow2Grows(n: nat, m: nat)
    requires n <= m
    ensures Pow2(n) <= Pow2(m)
  {
    if n < m { Pow2Grows(n, m - 1); }
  }

  lemma Pow2Small(n: nat)
    requires n < 24
    ensures 1 <= Pow2(n) <= 0x80_0000
  {
    Pow2Grows(n, 23);
    assert Pow2(11) == 0x800;
    assert Pow2(23) == 0x80_0000;
  }

  lemma ShiftTells(x: Word, c: nat, d: nat, p: nat)
    requires c < 0x200 && d < 0x200 && 1 <= p <= 0x80_0000 && (x + c * p) % MODULUS == (x + d * p) % MODULUS
    ensures c == d
  {
    Shifted(c, p);
    Shifted(d, p);
    AddTells(x, c * p, d * p);
    Factor(c, d, p);
  }

  /** Units below 512 stay apart however far they are shifted. */
  lemma NextTellsUnit(x: Word, c: Unit, d: Unit, i: nat)
    requires c < 0x200 && d < 0x200 && Next(x, c, i) == Next(x, d, i)
    ensures c == d
  {
    Pow2Small(i % 24);
    ShiftTells(x, c, d, Pow2(i % 24));
  }

  lemma Shifted(c: nat, p: nat)
    requires c < 0x200 && 1 <= p <= 0x80_0000
    ensures c * p < MODULUS
  {
    assert c * p <= c * 0x80_0000;
  }

  lemma AddTells(x: Word, a: nat, b: nat)
    requires a < MODULUS && b < MODULUS && (x + a) % MODULUS == (x + b) % MODULUS
    ensures a == b
  {}

  lemma Factor(c: nat, d: nat, p: nat)
    requires p >= 1 && c * p == d * p
    ensures c == d
  {
    Grows(p, c - d);
    assert p * (c - d) == c * p - d * p;
  }

  lemma MixedNextDiffers(u: seq<Word>, i: nat, c: Unit, d: Unit)
    requires |u| == 4 && c < 0x200 && d < 0x200 && c != d
    ensures Mixed(u, i, c)[(i % 4 + 1) % 4] != Mixed(u, i, d)[(i % 4 + 1) % 4]
  {
    var nw := (i % 4 + 1) % 4;
    if Next(u[nw], c, i) == Next(u[nw], d, i) { NextTellsUnit(u[nw], c, d, i); }
  }

  /** ... and, for units below 512, the next word too. */
  lemma {:induction false} NextWordDiffers(s: seq<Unit>, t: seq<Unit>, i: nat)
    requires OneChange(s, t, i) && s[i] < 0x200 && t[i] < 0x200
    ensures Words(s)[(i % 4 + 1) % 4] != Words(t)[(i % 4 + 1) % 4]
  {
    var n := |s| - 1;
    if i == n {
      assert s[..n] == t[..n];
      MixedNextDiffers(Words(s[..n]), n, s[n], t[n]);
    } else {
      NextWordDiffers(s[..n], t[..n], i);
      MixedKeepsApart(Words(s[..n]), Words(t[..n]), n, s[n], (i % 4 + 1) % 4);
    }
  }

  /** The change reaches an outer word, of which every bit is printed. */
  predicate ReachesOuterWord(s: seq<Unit>, t: seq<Unit>, i: nat)
    requires i < |s| && i < |t|
  {
    i % 4 == 0 || i % 4 == 3 || (i % 4 == 2 && s[i] < 0x200 && t[i] < 0x200)
  }

  lemma OuterWordDiffers(s: seq<Unit>, t: seq<Unit>, i: nat)
    requires OneChange(s, t, i) && ReachesOuterWord(s, t, i)
    ensures Words(s)[0] != Words(t)[0] || Words(s)[3] != Words(t)[3]
  {
    OwnWordDiffers(s, t, i);
    if i % 4 == 2 { NextWordDiffers(s, t, i); }
  }

  lemma OuterWordsShow(u: seq<Word>, v: seq<Word>)
    requires |u| == 4 && |v| == 4 && (u[0] != v[0] || u[3] != v[3])
    ensures IdOf(u) != IdOf(v)
  {
    SameIdIff(u, v);
  }

  /** One changed character always changes the id when it stands at a position that leaves 0 or 3 when divided by 4,
      and for characters below U+0200 also 2. At the positions left, both words it reaches have bits stamped over,
      and SameIdIff decides. */
  lemma OneChangeChangesId(s: seq<Unit>, t: seq<Unit>, i: nat)
    requires OneChange(s, t, i) && ReachesOuterWord(s, t, i)
    ensures IdOf(Words(s)) != IdOf(Words(t))
  {
    OuterWordDiffers(s, t, i);
    OuterWordsShow(Words(s), Words(t));
  }

  // ---------------------------------------------------------------- known values

  /** Bit k of a number. */
  function Bit(x: nat, k: nat): nat {
    x / Pow2(k) % 2
  }

  lemma {:induction false} BitOfHalf(x: nat, k: nat)
    ensures Bit(x / 2, k) == Bit(x, k + 1)
  {
    HalfThenPow(x, Pow2(k));
  }

  lemma HalfThenPow(x: nat, p: nat)
    requires p >= 1
    ensures x / 2 / p == x / (2 * p)
  {
    var h, q := x / 2, x / 2 / p;
    assert p * q <= h < p * q + p;
    QuotientAt(x, 2 * p, q);
  }

  lemma QuotientAt(x: nat, m: nat, q: nat)
    requires m >= 1 && m * q <= x < m * q + m
    ensures x / m == q
  {
    ModIs(x, m, q, x - m * q);
    assert m * (x / m) == m * q;
    assert m * (x / m - q) == 0;
  }

  lemma LastBit(x: nat)
    ensures Bit(x, 0) == x % 2
  {}

  lemma SumOfBits(a: nat, b: nat)
    ensures (a + b) % 2 == 1 <==> a % 2 != b % 2
  {}

  /** Every bit of the exclusive or is set exactly when one of the two is. */
  lemma {:induction false} XorBits(a: nat, b: nat, k: nat)
    ensures Bit(Xor(a, b), k) == 1 <==> Bit(a, k) != Bit(b, k)
    decreases k
  {
    XorHalves(a, b);
    if k == 0 {
      LastBit(a);
      LastBit(b);
      LastBit(Xor(a, b));
      SumOfBits(a, b);
    } else {
      XorBits(a / 2, b / 2, k - 1);
      BitOfHalf(Xor(a, b), k - 1);
      BitOfHalf(a, k - 1);
      BitOfHalf(b, k - 1);
    }
  }

  lemma {:induction false} XorZero(a: nat)
    ensures Xor(a, 0) == a
  {
    if a > 0 { XorZero(a / 2); }
  }

  lemma XorStep(a: nat, b: nat, half: nat)
    requires a + b > 0 && Xor(a / 2, b / 2) == half
    ensures Xor(a, b) == 2 * half + (a + b) % 2
  {}

  lemma XorOfA()
    ensures Xor(BASIS, 97) == 0x811c9da4
  {
    XorZero(0x102393b);
    XorStep(0x2047277, 1, 0x102393b);
    XorStep(0x408e4ee, 3, 0x2047276);
    XorStep(0x811c9dc, 6, 0x408e4ed);
    XorStep(0x102393b8, 12, 0x811c9da);
    XorStep(0x20472771, 24, 0x102393b4);
    XorStep(0x408e4ee2, 48, 0x20472769);
    XorStep(0x811c9dc5, 97, 0x408e4ed2);
  }

  lemma OwnOfA()
    ensures Own(BASIS, 97) == 0xe40c292c
  {
    XorOfA();
    ModIs(0x811c9da4 * 0x01000193, MODULUS, 0x811d68, 0xe40c292c);
  }

  lemma NextOfA()
    ensures Next(BASIS, 97, 0) == 0x811c9e26
  {}

  lemma MixedOnce(words: seq<Word>, own: Word, next: Word)
    requires |words| == 4 && Own(words[0], 97) == own && Next(words[1], 97, 0) == next
    ensures Mixed(words, 0, 97) == [own, next, words[2], words[3]]
  {}

  /** The known FNV-1a hash of "a" is the first word of its mix; the second shows the letter itself. */
  lemma WordsOfA()
    ensures Words([97]) == [0xe40c292c, 0x811c9e26, BASIS, BASIS]
  {
    OwnOfA();
    var one: seq<Unit> := [97];
    assert one[..0] == [] && Words([]) == [BASIS, BASIS, BASIS, BASIS];
    NextOfA();
    MixedOnce(Words([]), 0xe40c292c, 0x811c9e26);
  }

  lemma LowStep(w: nat, n: nat, s: string)
    requires Low(w / 16, n) == s
    ensures Low(w, n + 1) == s + [HexChar(w % 16)]
  {}

  lemma LowOfFirst()
    ensures Low(0xe40c292c, 8) == "e40c292c"
  {
    LowStep(0xe, 0, "");
    LowStep(0xe4, 1, "e");
    LowStep(0xe40, 2, "e4");
    LowStep(0xe40c, 3, "e40");
    LowStep(0xe40c2, 4, "e40c");
    LowStep(0xe40c29, 5, "e40c2");
    LowStep(0xe40c292, 6, "e40c29");
    LowStep(0xe40c292c, 7, "e40c292");
  }

  lemma LowOfUpperHalf()
    ensures Low(0x811c, 4) == "811c"
  {
    LowStep(0x8, 0, "");
    LowStep(0x81, 1, "8");
    LowStep(0x811, 2, "81");
    LowStep(0x811c, 3, "811");
  }

  lemma LowOfBasis()
    ensures Low(0x811c9dc5, 8) == "811c9dc5"
  {
    LowOfUpperHalf();
    LowStep(0x811c9, 4, "811c");
    LowStep(0x811c9d, 5, "811c9");
    LowStep(0x811c9dc, 6, "811c9d");
    LowStep(0x811c9dc5, 7, "811c9dc");
  }

  lemma LowOfSecond()
    ensures Low(0x811c9e26, 8) == "811c9e26"
  {
    LowOfUpperHalf();
    LowStep(0x811c9, 4, "811c");
    LowStep(0x811c9e, 5, "811c9");
    LowStep(0x811c9e2, 6, "811c9e");
    LowStep(0x811c9e26, 7, "811c9e2");
  }

  /** What the seed "a" is printed as before the stamps. */
  lemma DigitsOfA()
    ensures Printed(Words([97])) == "e40c292c" + "811c9e26" + "811c9dc5" + "811c9dc5"
  {
    WordsOfA();
    LowOfFirst();
    LowOfSecond();
    LowOfBasis();
  }
}
