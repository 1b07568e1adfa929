/** The ways of writing one number, and what normalising does to each (packages/shared/src/phone.ts). */
module PhoneForms {
  import opened Options
  import opened Text
  import opened Countries
  import opened Phone

  // ---------------------------------------------------------------- display forms

  function FormatLocal(raw: string, cc: string, dials: set<string>): string {
    var e164 := Canonical(Trim(raw), cc, dials);
    if e164.None? then Trim(raw)
    else LocalOf(e164.value[1..], cc)
  }

  function LocalOf(digits: string, cc: string): string {
    if Starts(digits, cc) then "0" + digits[|cc|..] else "+" + digits
  }

  function FormatDisplay(raw: string, cc: string, dials: set<string>): string {
    var e164 := Canonical(Trim(raw), cc, dials);
    if e164.None? then Trim(raw)
    else DisplayOf(e164.value[1..], cc)
  }

  function DisplayOf(digits: string, cc: string): string {
    if Starts(digits, cc) && |digits| == |cc| + 9 then
      var n := digits[|cc|..];
      "+" + cc + " " + n[..2] + " " + n[2..5] + " " + n[5..]
    else "+" + digits
  }

  /** What is shown: a home number with a 0 for its code, or in groups of two, three and four behind it; a number from
      abroad as it is dialled; and text that is no number, trimmed. */
  lemma FormsAre(raw: string, n: string, dials: set<string>)
    ensures Canonical(Trim(raw), "263", dials) == None ==>
              FormatLocal(raw, "263", dials) == FormatDisplay(raw, "263", dials) == Trim(raw)
    ensures Canonical(Trim(raw), "263", dials) == Some("+" + n) && !Starts(n, "263") ==>
              FormatLocal(raw, "263", dials) == FormatDisplay(raw, "263", dials) == "+" + n
    ensures Canonical(Trim(raw), "263", dials) == Some("+" + ("263" + n)) ==>
              && FormatLocal(raw, "263", dials) == "0" + n
              && (|n| == 9 ==> FormatDisplay(raw, "263", dials) == "+263 " + n[..2] + " " + n[2..5] + " " + n[5..9])
  {
    assert ("+" + n)[1..] == n;
    var d := "263" + n;
    assert ("+" + d)[1..] == d && d[..3] == "263" && d[3..] == n;
    if |n| == 9 { GroupedIs(n); }
  }

  lemma GroupedIs(n: string)
    requires |n| == 9
    ensures DisplayOf("263" + n, "263") == "+263 " + n[..2] + " " + n[2..5] + " " + n[5..9]
  {
    var d := "263" + n;
    assert d[..3] == "263" && d[3..] == n && n[5..] == n[5..9];
    assert "+" + "263" + " " == "+263 ";
  }

  // ---------------------------------------------------------------- strings of digits

  lemma Cancel(p: string, s: string, t: string)
    ensures p + s == p + t <==> s == t
    ensures Starts(p + s, p)
  {
    assert (p + s)[|p|..] == s && (p + t)[|p|..] == t;
  }

  lemma StartsSplit(s: string, p: string)
    requires Starts(s, p)
    ensures s == p + s[|p|..]
  {}

  lemma DoubleZero(m: string)
    ensures Starts(m, "00") <==> Starts(m, "0") && Starts(m[1..], "0")
  {
    if |m| >= 2 {
      assert m[..1] == [m[0]] && m[1..][..1] == [m[1]] && m[..2] == [m[0], m[1]];
    }
  }

  lemma ZerosDroppedIs(m: string)
    ensures !Starts(m, "0") ==> ZerosDropped(m) == m
    ensures ZerosDropped(m) == OneZeroDropped(m) <==> !Starts(m, "00")
  {
    DoubleZero(m);
  }

  // ---------------------------------------------------------------- dropping trunks

  function Trunkless(x: string, cc: string, dials: set<string>): string {
    AbroadTrunkDropped(HomeTrunkDropped(x, cc), cc, dials)
  }

  lemma TrunkStarts(x: string, cc: string)
    requires Starts(x, cc + "0")
    ensures Starts(x, cc) && x == cc + "0" + x[|cc| + 1..]
  {
    HomeTrunkAt(x, cc);
    StartsSplit(x, cc + "0");
  }

  /** A draft that begins with the home code loses at most its one trunk 0. */
  lemma TrunklessHome(x: string, cc: string, dials: set<string>)
    requires ValidTable(dials) && cc in dials && Starts(x, cc)
    ensures Trunkless(x, cc, dials) == HomeTrunkDropped(x, cc) == cc + OneZeroDropped(x[|cc|..])
  {
    var y := HomeTrunkDropped(x, cc);
    HomeTrunkAt(x, cc);
    StartsSplit(x, cc);
    var m := x[|cc|..];
    assert Starts(m, "0") <==> Starts(x, cc + "0") by {
      if Starts(m, "0") { assert m[0] == m[..1][0] == '0'; }
      if Starts(x, cc + "0") { assert m[..1] == "0"; }
    }
    assert y == cc + OneZeroDropped(m);
    Cancel(cc, OneZeroDropped(m), m);
    DialIsThePrefix(dials, y, cc);
  }

  /** A draft from abroad loses all zeros after its code, or none where they belong to the number. */
  lemma TrunklessAbroad(x: string, cc: string, dials: set<string>, dial: string)
    requires ValidTable(dials) && cc in dials && dial in dials && dial != cc && Starts(x, dial)
    ensures Trunkless(x, cc, dials) == dial + (if dial in TRUNK_ZERO_KEPT then x[|dial|..] else ZerosDropped(x[|dial|..]))
  {
    StartsSplit(x, dial);
    DialIsThePrefix(dials, x, dial);
    if Starts(x, cc + "0") {
      TrunkStarts(x, cc);
      StartsUnique(dials, x, cc, dial);
    }
  }

  lemma TrunklessUnknown(x: string, cc: string, dials: set<string>)
    requires ValidTable(dials) && cc in dials && forall d :: d in dials ==> !Starts(x, d)
    ensures Trunkless(x, cc, dials) == x
  {
    if Starts(x, cc + "0") { TrunkStarts(x, cc); }
    var o := DialOf(dials, x);
    if o.Some? { DialIsThePrefix(dials, x, o.value); }
  }

  // ---------------------------------------------------------------- every spelling of one number

  /** All the ways of writing the Zimbabwe number `n`: with its code after "+", "00" or nothing, with or without
      a trunk 0 after the code; and without the code, after a trunk 0 or bare if that cannot be read as a code. */
  predicate Spells(raw: string, n: string) {
    var d := Digits(raw);
    || d == "263" + n
    || d == "2630" + n
    || (!HadPlus(raw) &&
        (d == "00263" + n || d == "002630" + n || d == "0" + n || (d == n && !Starts(n, "263"))))
  }

  ghost predicate IsNational(n: string) {
    |n| == 9 && AllDigits(n) && n[0] != '0'
  }

  lemma NoLeadingZero(n: string)
    requires n != "" && n[0] != '0'
    ensures !Starts(n, "0") && OneZeroDropped(n) == n
  {
    assert n[..1] == [n[0]];
  }

  /** What the home number is drafted from. */
  lemma HomeDrafts(x: string, n: string, dials: set<string>)
    requires ValidTable(dials) && "263" in dials && IsNational(n)
    ensures Trunkless(x, "263", dials) == "263" + n <==> x == "263" + n || x == "2630" + n
  {
    Cancel("263", n, n);
    NoLeadingZero(n);
    if Starts(x, "263") {
      TrunklessHome(x, "263", dials);
      StartsSplit(x, "263");
      var m := x[3..];
      Cancel("263", OneZeroDropped(m), n);
      Cancel("263", m, n);
      Cancel("263", m, "0" + n);
      assert "2630" + n == "263" + ("0" + n);
      if m == "0" + n { assert Starts(m, "0"); }
      if OneZeroDropped(m) == n && m != n { StartsSplit(m, "0"); }
    } else {
      assert Starts("2630" + n, "263");
      NotHome(x, n, dials);
    }
  }

  lemma NotHome(x: string, n: string, dials: set<string>)
    requires ValidTable(dials) && "263" in dials && !Starts(x, "263")
    ensures Trunkless(x, "263", dials) != "263" + n
  {
    Cancel("263", n, n);
    if d :| d in dials && Starts(x, d) {
      TrunklessAbroad(x, "263", dials, d);
      var rest := if d in TRUNK_ZERO_KEPT then x[|d|..] else ZerosDropped(x[|d|..]);
      Cancel(d, rest, rest);
      if Trunkless(x, "263", dials) == "263" + n { StartsUnique(dials, "263" + n, d, "263"); }
    } else {
      TrunklessUnknown(x, "263", dials);
    }
  }

  lemma PlainDrafts(d: string, n: string)
    requires IsNational(n)
    ensures (Drafted(false, d, "263") == "263" + n || Drafted(false, d, "263") == "2630" + n) <==>
            (d == "263" + n || d == "2630" + n || d == "00263" + n || d == "002630" + n || d == "0" + n
             || (d == n && !Starts(n, "263")))
  {
    NoLeadingZero(n);
    assert "2630" + n == "263" + ("0" + n);
    assert ("0" + n)[1] == n[0];
    if Starts(d, "00") {
      StartsSplit(d, "00");
      DraftDouble(d, n);
    } else if Starts(d, "0") {
      StartsSplit(d, "0");
      DraftTrunk(d, n);
    } else if Starts(d, "263") {
      DraftCode(d, n);
    } else {
      DraftBare(d, n);
    }
  }

  lemma DraftDouble(d: string, n: string)
    requires IsNational(n) && Starts(d, "00") && d == "00" + d[2..]
    ensures d != "263" + n && d != "2630" + n && d != "0" + n && d != n
    ensures d == "00263" + n <==> d[2..] == "263" + n
    ensures d == "002630" + n <==> d[2..] == "2630" + n
  {
    assert d[0] == '0' && d[1] == '0';
    assert ("0" + n)[1] == n[0];
    assert "00263" + n == "00" + ("263" + n) && "002630" + n == "00" + ("2630" + n);
    Cancel("00", d[2..], "263" + n);
    Cancel("00", d[2..], "2630" + n);
  }

  lemma DraftTrunk(d: string, n: string)
    requires IsNational(n) && Starts(d, "0") && !Starts(d, "00") && d == "0" + d[1..]
    ensures d != "263" + n && d != "2630" + n && d != n && d != "00263" + n && d != "002630" + n
    ensures d == "0" + n <==> "263" + d[1..] == "263" + n
    ensures "263" + d[1..] != "2630" + n
  {
    assert d[0] == '0';
    assert Starts("00263" + n, "00") && Starts("002630" + n, "00");
    Cancel("0", d[1..], n);
    Cancel("263", d[1..], n);
    assert "2630" + n == "263" + ("0" + n);
    Cancel("263", d[1..], "0" + n);
  }

  lemma DraftCode(d: string, n: string)
    requires IsNational(n) && Starts(d, "263")
    ensures d != "0" + n && d != "00263" + n && d != "002630" + n && !(d == n && !Starts(n, "263"))
  {
    assert d[0] == d[..3][0] == '2';
  }

  lemma DraftBare(d: string, n: string)
    requires IsNational(n) && !Starts(d, "0") && !Starts(d, "263")
    ensures d != "0" + n && d != "00263" + n && d != "002630" + n && d != "263" + n && d != "2630" + n
    ensures "263" + d == "263" + n <==> d == n
    ensures "263" + d != "2630" + n
  {
    assert Starts("0" + n, "0") && Starts("00263" + n, "0") && Starts("002630" + n, "0");
    assert Starts("263" + n, "263") && Starts("2630" + n, "263");
    Cancel("263", d, n);
    assert "2630" + n == "263" + ("0" + n);
    Cancel("263", d, "0" + n);
  }

  lemma AcceptedHome(plus: bool, d: string, n: string, dials: set<string>)
    requires ValidTable(dials) && "263" in dials && IsNational(n)
    ensures CanonicalDigits(plus, d, "263", dials) == Some("263" + n) <==>
            Drafted(plus, d, "263") == "263" + n || Drafted(plus, d, "263") == "2630" + n
  {
    var x := Drafted(plus, d, "263");
    HomeDrafts(x, n, dials);
    Cancel("263", n, n);
    if x == "263" + n || x == "2630" + n {
      assert x[0] == '2';
    }
  }

  /** One subscriber, one identity: an entry is given the number's canonical form exactly when it is one of the
      number's spellings. */
  lemma SpellingsExactly(raw: string, n: string, dials: set<string>)
    requires ValidTable(dials) && "263" in dials && IsNational(n)
    ensures Canonical(raw, "263", dials) == Some("+263" + n) <==> Spells(raw, n)
  {
    var plus, d := HadPlus(raw), Digits(raw);
    AcceptedHome(plus, d, n, dials);
    PlainDrafts(d, n);
    var c := CanonicalDigits(plus, d, "263", dials);
    assert "+" + ("263" + n) == "+263" + n;
    if c.Some? { Cancel("+", c.value, "263" + n); }
  }

  // ---------------------------------------------------------------- reading back

  lemma AllDigitsSolid(s: string)
    requires |s| > 0 && IsDigit(s[|s| - 1]) && !IsSpace(s[0])
    ensures Trim(s) == s && HadPlus(s) == Starts(s, "+")
  {
    TrimSolid(s);
  }

  lemma PlusDigits(z: string)
    requires z != "" && AllDigits(z)
    ensures HadPlus("+" + z) && Digits("+" + z) == z
  {
    AllDigitsSolid("+" + z);
    assert ("+" + z)[1..] == z;
    DigitsOfDigits(z);
  }

  lemma ZerosDroppedDigits(s: string)
    requires AllDigits(s)
    ensures AllDigits(ZerosDropped(s))
  {}

  lemma DialHead(dials: set<string>, d: string, rest: string)
    requires ValidTable(dials) && d in dials
    ensures d + rest != "" && !Starts(d + rest, "0")
  {
    assert (d + rest)[0] == d[0];
    NoLeadingZero(d + rest);
  }

  /** What a draft becomes: digits, no leading 0, and no trunk zeros from abroad left to drop. */
  lemma TrunklessIs(x: string, cc: string, dials: set<string>)
    requires ValidTable(dials) && cc in dials && AllDigits(x) && x != "" && !Starts(x, "0")
    ensures var z := Trunkless(x, cc, dials);
            z != "" && AllDigits(z) && !Starts(z, "0") && AbroadTrunkDropped(z, cc, dials) == z && |z| <= |x|
  {
    var z := Trunkless(x, cc, dials);
    if Starts(x, cc) {
      TrunklessHome(x, cc, dials);
      DialHead(dials, cc, OneZeroDropped(x[|cc|..]));
      Cancel(cc, OneZeroDropped(x[|cc|..]), "");
      DialIsThePrefix(dials, z, cc);
    } else if d :| d in dials && Starts(x, d) {
      TrunklessAbroad(x, cc, dials, d);
      var m := x[|d|..];
      ZerosDroppedDigits(m);
      ZerosDroppedIs(ZerosDropped(m));
      var rest := if d in TRUNK_ZERO_KEPT then m else ZerosDropped(m);
      DialHead(dials, d, rest);
      Cancel(d, rest, "");
      DialIsThePrefix(dials, z, d);
    } else {
      TrunklessUnknown(x, cc, dials);
      var o := DialOf(dials, x);
      if o.Some? { DialIsThePrefix(dials, x, o.value); }
    }
  }

  /** The digits of an accepted number. */
  ghost predicate Accepted(z: string, cc: string, dials: set<string>) {
    z != "" && AllDigits(z) && !Starts(z, "0") && AbroadTrunkDropped(z, cc, dials) == z && Plausible(z, cc)
  }

  lemma CanonicalIsAccepted(raw: string, cc: string, dials: set<string>)
    requires ValidTable(dials) && cc in dials && Canonical(raw, cc, dials).Some?
    ensures var e := Canonical(raw, cc, dials).value; e[0] == '+' && Accepted(e[1..], cc, dials)
  {
    var d := Digits(raw);
    var x := Drafted(HadPlus(raw), d, cc);
    DraftedDigits(HadPlus(raw), d, cc);
    if x == "" {
      TrunklessEmpty(cc, dials);
    } else {
      TrunklessIs(x, cc, dials);
      assert Canonical(raw, cc, dials).value[1..] == Trunkless(x, cc, dials);
    }
  }

  lemma TrunklessEmpty(cc: string, dials: set<string>)
    requires ValidTable(dials) && cc in dials
    ensures |Trunkless("", cc, dials)| < 8
  {
    TrunklessUnknown("", cc, dials);
  }

  /** E.164: "+", eight to fifteen digits, no leading 0. */
  lemma CanonicalIsE164(raw: string, cc: string, dials: set<string>)
    requires ValidTable(dials) && cc in dials && Canonical(raw, cc, dials).Some?
    ensures var e := Canonical(raw, cc, dials).value;
            9 <= |e| <= 16 && e[0] == '+' && AllDigits(e[1..]) && e[1] != '0'
  {
    CanonicalIsAccepted(raw, cc, dials);
    var z := Canonical(raw, cc, dials).value[1..];
    assert z[..1] == [z[0]];
  }

  /** Read as international digits, an accepted number comes back unless a 0 still follows the home code. */
  lemma DigitsComeBack(z: string, cc: string, dials: set<string>)
    requires ValidTable(dials) && cc in dials && Accepted(z, cc, dials)
    ensures CanonicalDigits(true, z, cc, dials) == Some(z) <==> !Starts(z, cc + "0")
  {
    if Starts(z, cc + "0") {
      TrunkStarts(z, cc);
      TrunklessHome(z, cc, dials);
      assert |HomeTrunkDropped(z, cc)| == |z| - 1;
    }
  }

  lemma SameReading(raw: string, s: string, cc: string, dials: set<string>)
    requires HadPlus(s) == HadPlus(raw) && Digits(s) == Digits(raw)
    ensures Canonical(s, cc, dials) == Canonical(raw, cc, dials)
  {}

  lemma TrimReadsTheSame(raw: string, cc: string, dials: set<string>)
    ensures Canonical(Trim(raw), cc, dials) == Canonical(raw, cc, dials)
  {
    DigitsTrim(raw);
    TrimIdempotent(raw);
  }

  lemma E164ComesBack(z: string, cc: string, dials: set<string>)
    requires ValidTable(dials) && cc in dials && Accepted(z, cc, dials)
    ensures Canonical("+" + z, cc, dials) == Some("+" + z) <==> !Starts(z, cc + "0")
  {
    PlusDigits(z);
    DigitsComeBack(z, cc, dials);
    var c := CanonicalDigits(true, z, cc, dials);
    if c.Some? { Cancel("+", c.value, z); }
  }

  lemma LocalComesBack(z: string, cc: string, dials: set<string>)
    requires ValidTable(dials) && cc in dials && Accepted(z, cc, dials) && Starts(z, cc)
    ensures Canonical("0" + z[|cc|..], cc, dials) == Some("+" + z) <==> !Starts(z, cc + "0")
  {
    var m := z[|cc|..];
    var s := "0" + m;
    StartsSplit(z, cc);
    AllDigitsSolid(s);
    DigitsOfDigits(s);
    HomeTrunkAt(z, cc);
    assert s[..1] == "0" && s[..2] == [s[0], m[0]];
    if m[0] == '0' { LocalIsLost(m, z, cc, dials); } else { LocalIsDrafted(m, z, cc, dials); }
    var c := CanonicalDigits(false, s, cc, dials);
    if c.Some? { Cancel("+", c.value, z); }
  }

  lemma LocalIsLost(m: string, z: string, cc: string, dials: set<string>)
    requires ValidTable(dials) && cc in dials && Starts("0" + m, "00") && AllDigits(m) && |z| > |m|
    ensures CanonicalDigits(false, "0" + m, cc, dials) != Some(z)
  {
    var x := ("0" + m)[2..];
    assert x == m[1..];
    ShorterDraft(x, cc, dials);
  }

  lemma LocalIsDrafted(m: string, z: string, cc: string, dials: set<string>)
    requires ValidTable(dials) && cc in dials && Accepted(z, cc, dials) && z == cc + m && !Starts(z, cc + "0")
    requires Starts("0" + m, "0") && !Starts("0" + m, "00")
    ensures CanonicalDigits(false, "0" + m, cc, dials) == Some(z)
  {
    assert ("0" + m)[1..] == m;
    DigitsComeBack(z, cc, dials);
  }

  lemma ShorterDraft(x: string, cc: string, dials: set<string>)
    requires ValidTable(dials) && cc in dials && AllDigits(x)
    ensures x == "" || Starts(x, "0") || |Trunkless(x, cc, dials)| <= |x|
    ensures x == "" ==> |Trunkless(x, cc, dials)| < 8
  {
    if x == "" { TrunklessEmpty(cc, dials); } else if !Starts(x, "0") { TrunklessIs(x, cc, dials); }
  }

  lemma SpacedDigits(s: string, d: string, t: string)
    requires Digits(s) == d && AllDigits(t)
    ensures Digits(s + " " + t) == d + t
  {
    SpaceAdds(s);
    DigitsConcat(s + " ", t);
    DigitsOfDigits(t);
  }

  lemma SpaceAdds(s: string)
    ensures Digits(s + " ") == Digits(s)
  {
    DigitsOfSpace(" ");
    DigitsConcat(s, " ");
  }

  lemma PlusOnly(cc: string)
    requires AllDigits(cc)
    ensures Digits("+" + cc) == cc
  {
    assert ("+" + cc)[1..] == cc;
    DigitsOfDigits(cc);
  }

  lemma GroupedDigits(cc: string, a: string, b: string, c: string)
    requires AllDigits(cc) && AllDigits(a) && AllDigits(b) && AllDigits(c)
    ensures Digits("+" + cc + " " + a + " " + b + " " + c) == cc + a + b + c
  {
    PlusOnly(cc);
    SpacedDigits("+" + cc, cc, a);
    SpacedDigits("+" + cc + " " + a, cc + a, b);
    SpacedDigits("+" + cc + " " + a + " " + b, cc + a + b, c);
  }

  lemma SpacedEnds(s: string, t: string)
    requires s != "" && t != ""
    ensures var u := s + " " + t; u[0] == s[0] && u[|u| - 1] == t[|t| - 1]
  {}

  lemma GroupedPlus(cc: string, a: string, b: string, c: string)
    requires AllDigits(c) && a != "" && b != "" && c != ""
    ensures HadPlus("+" + cc + " " + a + " " + b + " " + c)
  {
    SpacedEnds("+" + cc, a);
    SpacedEnds("+" + cc + " " + a, b);
    SpacedEnds("+" + cc + " " + a + " " + b, c);
    var s := "+" + cc + " " + a + " " + b + " " + c;
    AllDigitsSolid(s);
    assert s[..1] == [s[0]];
  }

  lemma DisplayReads(z: string, cc: string)
    requires AllDigits(z) && z != "" && Starts(z, cc)
    ensures HadPlus(DisplayOf(z, cc)) && Digits(DisplayOf(z, cc)) == z
  {
    PlusDigits(z);
    if |z| == |cc| + 9 {
      StartsSplit(z, cc);
      var n := z[|cc|..];
      GroupedDigits(cc, n[..2], n[2..5], n[5..]);
      GroupedPlus(cc, n[..2], n[2..5], n[5..]);
      assert cc + n[..2] + n[2..5] + n[5..] == cc + n;
    }
  }

  /** Normalising an accepted number, its local form or its display form gives it back exactly when no 0 follows
      its home code: the doubled trunk 0, of which one is dropped, is the only corner. */
  lemma FormsReadBackIff(raw: string, cc: string, dials: set<string>)
    requires ValidTable(dials) && cc in dials && Canonical(raw, cc, dials).Some?
    ensures var e := Canonical(raw, cc, dials);
            var back := !Starts(e.value[1..], cc + "0");
            && (Canonical(e.value, cc, dials) == e <==> back)
            && (Canonical(FormatLocal(raw, cc, dials), cc, dials) == e <==> back)
            && (Canonical(FormatDisplay(raw, cc, dials), cc, dials) == e <==> back)
  {
    CanonicalIsAccepted(raw, cc, dials);
    TrimReadsTheSame(raw, cc, dials);
    var e := Canonical(raw, cc, dials).value;
    var z := e[1..];
    assert e == "+" + z;
    E164ComesBack(z, cc, dials);
    if Starts(z, cc) {
      LocalComesBack(z, cc, dials);
      DisplayReads(z, cc);
      PlusDigits(z);
      SameReading(e, DisplayOf(z, cc), cc, dials);
    }
  }

  function International(m: string): string {
    "+" + ("263" + m)
  }

  /** "+263" and national digits: one trunk 0 is dropped, then nine digits must be left. */
  lemma PlusHome(m: string, dials: set<string>)
    requires ValidTable(dials) && "263" in dials && AllDigits(m)
    ensures var n := OneZeroDropped(m);
            Canonical(International(m), "263", dials) == (if |n| == 9 then Some(International(n)) else None)
  {
    var x := "263" + m;
    PlusDigits(x);
    DialHead(dials, "263", m);
    Cancel("263", m, m);
    TrunklessHome(x, "263", dials);
    assert x[3..] == m;
  }

  /** The corner is reachable: with two zeros after the code, eight digits are accepted, and the canonical form
      of that is then refused. */
  lemma DoubledTrunk(n: string, dials: set<string>)
    requires ValidTable(dials) && "263" in dials && |n| == 8 && AllDigits(n)
    ensures Canonical(International("0" + ("0" + n)), "263", dials) == Some(International("0" + n))
    ensures Canonical(International("0" + n), "263", dials) == None
  {
    ZeroFirst(n);
    ZeroFirst("0" + n);
    PlusHome("0" + ("0" + n), dials);
    PlusHome("0" + n, dials);
  }

  lemma ZeroFirst(n: string)
    requires AllDigits(n)
    ensures OneZeroDropped("0" + n) == n && AllDigits("0" + n)
  {
    assert ("0" + n)[..1] == "0" && ("0" + n)[1..] == n;
  }

  // ---------------------------------------------------------------- the entry field

  lemma PlusIsInternational(input: string)
    requires HadPlus(input)
    ensures IsInternational(input)
  {
    var b := TrimEndSplit(TrimStart(input));
    assert TrimStart(input)[..1] == Trim(input)[..1];
  }

  /** The digits of an entry are `m`, by themselves or, where it starts with + or 00, behind the code. */
  predicate Enters(input: string, dial: string, m: string) {
    var typed := Digits(input);
    if Starts(TrimStart(input), "+") || Starts(TrimStart(input), "00") then typed == dial + m || typed == "00" + (dial + m)
    else typed == m
  }

  lemma EnteredDigits(input: string, dial: string, m: string)
    requires IsDial(dial) && Enters(input, dial, m)
    ensures National(input, dial) == Slice(if dial in TRUNK_ZERO_KEPT then m else OneZeroDropped(m), 15 - |dial|)
  {
    EntryAfterPrefix(dial, m);
  }

  /** Whatever the spacing and punctuation of an entry, one national number is read out of it: from its own digits,
      behind the code, and, unless the code keeps zeros, behind one trunk 0 as well. */
  lemma EntryReadsNational(input: string, dial: string, n: string)
    requires IsDial(dial) && AllDigits(n) && |dial| + |n| <= 15
    requires if dial in {"39", "225", "241", "242"} then Enters(input, dial, n)
             else !Starts(n, "0") && (Enters(input, dial, n) || Enters(input, dial, "0" + n))
    ensures National(input, dial) == n
  {
    ZeroFirst(n);
    if Enters(input, dial, n) { EnteredDigits(input, dial, n); } else { EnteredDigits(input, dial, "0" + n); }
  }

  /** And what is read out of any entry fits a number of 15 digits with its code. */
  lemma NationalFits(input: string, dial: string)
    requires IsDial(dial)
    ensures AllDigits(National(input, dial)) && |dial| + |National(input, dial)| <= 15
  {
    var d := Digits(input);
    var n := if IsInternational(input) then After(After(d, "00"), dial) else d;
    DigitsAfter(d, "00");
    DigitsAfter(After(d, "00"), dial);
    DigitsStay(n, 15 - |dial|);
    DigitsStay(OneZeroDropped(n), 15 - |dial|);
  }

  lemma DigitsAfter(d: string, prefix: string)
    requires AllDigits(d)
    ensures AllDigits(After(d, prefix))
  {}

  lemma DigitsStay(n: string, k: nat)
    requires AllDigits(n)
    ensures AllDigits(OneZeroDropped(n)) && AllDigits(Slice(n, k)) && |Slice(n, k)| <= k
  {}

  lemma EntryAfterPrefix(dial: string, m: string)
    requires IsDial(dial)
    ensures After(After(dial + m, "00"), dial) == m && After(After("00" + (dial + m), "00"), dial) == m
  {
    var d := dial + m;
    assert d[..|dial|] == dial && d[|dial|..] == m && d[0] == dial[0];
    assert !Starts(d, "00") by { if |d| >= 2 { assert d[..2][0] == d[0]; } }
    assert ("00" + d)[..2] == "00" && ("00" + d)[2..] == d;
  }

  /** What the entry field keeps of the digits after the code, and what the canonical form keeps of them. */
  function Entered(dial: string, m: string): string {
    if dial in TRUNK_ZERO_KEPT then m else OneZeroDropped(m)
  }

  function Kept(dial: string, m: string): string {
    if dial == "263" then OneZeroDropped(m) else if dial in TRUNK_ZERO_KEPT then m else ZerosDropped(m)
  }

  lemma EntryNational(input: string, dial: string, m: string, dials: set<string>)
    requires ValidTable(dials) && dial in dials
    requires HadPlus(input) && Digits(input) == dial + m && |dial + m| <= 15
    ensures National(input, dial) == Entered(dial, m)
  {
    var d := dial + m;
    PlusIsInternational(input);
    DialHead(dials, dial, m);
    DoubleZero(d);
    Cancel(dial, m, m);
    assert d[|dial|..] == m;
  }

  lemma EntryCanonical(input: string, dial: string, m: string, dials: set<string>)
    requires ValidTable(dials) && "263" in dials && dial in dials
    requires HadPlus(input) && Digits(input) == dial + m && Canonical(input, "263", dials).Some?
    ensures Canonical(input, "263", dials) == Some("+" + (dial + Kept(dial, m)))
  {
    var d := dial + m;
    Cancel(dial, m, m);
    assert d[|dial|..] == m;
    if dial == "263" { TrunklessHome(d, dial, dials); } else { TrunklessAbroad(d, "263", dials, dial); }
  }

  lemma SameNumber(dial: string, r: string, n: string)
    ensures "+" + (dial + r) == ToE164(dial, n) <==> r == n
  {
    assert ToE164(dial, n) == "+" + (dial + n);
    Cancel("+", dial + r, dial + n);
    Cancel(dial, r, n);
  }

  lemma KeptIsEnteredIff(dial: string, m: string)
    ensures Kept(dial, m) == Entered(dial, m) <==> dial in TRUNK_ZERO_KEPT || dial == "263" || !Starts(m, "00")
  {
    ZerosDroppedIs(m);
  }

  /** A number typed with "+" in the entry field for `dial` is built into the number that normalising the same
      text gives, exactly when the code keeps its zeros, is the home code, or is not followed by two zeros: the
      field drops one trunk 0, the canonical form all of them. */
  lemma EntryAgreesIff(input: string, dial: string, m: string, dials: set<string>)
    requires ValidTable(dials) && "263" in dials && dial in dials
    requires HadPlus(input) && Digits(input) == dial + m && |dial + m| <= 15
    requires Canonical(input, "263", dials).Some?
    ensures Canonical(input, "263", dials) == Some(ToE164(dial, National(input, dial))) <==>
            dial in TRUNK_ZERO_KEPT || dial == "263" || !Starts(m, "00")
  {
    EntryNational(input, dial, m, dials);
    EntryCanonical(input, dial, m, dials);
    SameNumber(dial, Kept(dial, m), Entered(dial, m));
    KeptIsEnteredIff(dial, m);
  }

  /** They do part, for every code from abroad that does not keep its zeros: of two zeros after the code the canonical
      form drops both and the entry field one. */
  lemma EntryCanDisagree(dial: string, n: string, dials: set<string>)
    requires ValidTable(dials) && "263" in dials && dial in dials && dial != "263" && dial !in TRUNK_ZERO_KEPT
    requires AllDigits(n) && n != "" && n[0] != '0' && 8 <= |dial| + |n| <= 13
    ensures var input := "+" + (dial + ("00" + n));
            && Canonical(input, "263", dials) == Some("+" + (dial + n))
            && ToE164(dial, National(input, dial)) == "+" + (dial + ("0" + n))
  {
    var m := "00" + n;
    NoLeadingZero(n);
    TwoZeros(n);
    PlusDigits(dial + m);
    AbroadIsKept(dial, m, n, dials);
    EntryNational("+" + (dial + m), dial, m, dials);
    BuiltNumber(dial, "0" + n);
  }

  lemma BuiltNumber(dial: string, national: string)
    ensures ToE164(dial, national) == "+" + (dial + national)
  {}

  lemma TwoZeros(n: string)
    requires !Starts(n, "0")
    ensures OneZeroDropped("00" + n) == "0" + n && ZerosDropped("00" + n) == n
  {
    var one := "0" + n;
    assert "00" + n == "0" + one && ("0" + one)[..1] == "0" && ("0" + one)[1..] == one;
    assert one[..1] == "0" && one[1..] == n;
    assert ZerosDropped(one) == ZerosDropped(n);
  }

  lemma AbroadIsKept(dial: string, m: string, n: string, dials: set<string>)
    requires ValidTable(dials) && "263" in dials && dial in dials && dial != "263" && dial !in TRUNK_ZERO_KEPT
    requires 8 <= |dial + n| <= 15 && ZerosDropped(m) == n
    ensures CanonicalDigits(true, dial + m, "263", dials) == Some(dial + n)
  {
    DialHead(dials, dial, m);
    EntryTrunkless(dial, m, dials);
    NotZimbabwe(dial, n, dials);
  }

  lemma EntryTrunkless(dial: string, m: string, dials: set<string>)
    requires ValidTable(dials) && "263" in dials && dial in dials && dial != "263"
    ensures Trunkless(dial + m, "263", dials) == dial + (if dial in TRUNK_ZERO_KEPT then m else ZerosDropped(m))
  {
    Cancel(dial, m, m);
    assert (dial + m)[|dial|..] == m;
    TrunklessAbroad(dial + m, "263", dials, dial);
  }

  lemma NotZimbabwe(dial: string, n: string, dials: set<string>)
    requires ValidTable(dials) && "263" in dials && dial in dials && dial != "263"
    ensures !Starts(dial + n, "263")
  {
    Cancel(dial, n, n);
    if Starts(dial + n, "263") { StartsUnique(dials, dial + n, dial, "263"); }
  }
}
