/** The canonical form of a phone number (packages/shared/src/phone.ts). */
module Phone {
  import opened Options
  import opened Text
  import opened Countries

  const DEFAULT_COUNTRY_CODE := "263"

  // ---------------------------------------------------------------- the canonical form

  predicate HadPlus(raw: string) {
    Starts(Trim(raw), "+")
  }

  /** The digits with a country code in front, as far as the spelling tells. */
  function Drafted(plus: bool, d: string, cc: string): string {
    if plus then d
    else if Starts(d, "00") then d[2..]
    else if Starts(d, "0") then cc + d[1..]
    else if Starts(d, cc) then d
    else cc + d
  }

  /** Without one trunk 0 that survived the home code. */
  function HomeTrunkDropped(d: string, cc: string): string {
    if Starts(d, cc + "0") then cc + d[|cc| + 1..] else d
  }

  function ZerosDropped(d: string): (r: string)
    ensures |r| <= |d| && !Starts(r, "0")
  {
    if Starts(d, "0") then ZerosDropped(d[1..]) else d
  }

  /** Without the trunk zeros after a code from abroad. */
  function AbroadTrunkDropped(d: string, cc: string, dials: set<string>): string {
    var dial := DialOf(dials, d);
    if dial.Some? && dial.value != cc && dial.value !in TRUNK_ZERO_KEPT && Starts(d, dial.value)
    then dial.value + ZerosDropped(d[|dial.value|..]) else d
  }

  predicate Plausible(d: string, cc: string) {
    && 8 <= |d| <= 15
    && (cc == DEFAULT_COUNTRY_CODE && Starts(d, cc) ==> |d| == |cc| + 9)
  }

  /** The digits after "+", if the digits `d` of the entry make a number. */
  function CanonicalDigits(plus: bool, d: string, cc: string, dials: set<string>): Option<string> {
    if d == "" then None
    else
      var x := Drafted(plus, d, cc);
      if Starts(x, "0") then None
      else
        var z := AbroadTrunkDropped(HomeTrunkDropped(x, cc), cc, dials);
        if Plausible(z, cc) then Some(z) else None
  }

  function Canonical(raw: string, cc: string, dials: set<string>): Option<string> {
    var z := CanonicalDigits(HadPlus(raw), Digits(raw), cc, dials);
    if z.Some? then Some("+" + z.value) else None
  }

  method NormalizePhone(raw: string, cc: string, dials: set<string>) returns (e164: Option<string>)
    requires ValidTable(dials) && cc in dials
    ensures e164 == Canonical(raw, cc, dials)
  {
    var hadPlus := HadPlus(raw);
    var digits := Digits(raw);
    if digits == "" { return None; }
    DraftedDigits(hadPlus, digits, cc);
    digits := Draft(hadPlus, digits, cc);
    if Starts(digits, "0") { return None; }
    digits := DropTrunks(digits, cc, dials);
    if |digits| < 8 || |digits| > 15 { return None; }
    if cc == DEFAULT_COUNTRY_CODE && Starts(digits, cc) && |digits| != |cc| + 9 { return None; }
    e164 := Some("+" + digits);
  }

  method Draft(hadPlus: bool, entered: string, cc: string) returns (digits: string)
    ensures digits == Drafted(hadPlus, entered, cc)
  {
    digits := entered;
    if hadPlus {
    } else if Starts(digits, "00") {
      digits := digits[2..];
    } else if Starts(digits, "0") {
      digits := cc + digits[1..];
    } else if Starts(digits, cc) {
    } else {
      digits := cc + digits;
    }
  }

  method DropTrunks(draft: string, cc: string, dials: set<string>) returns (digits: string)
    requires ValidTable(dials) && cc in dials && AllDigits(draft)
    ensures digits == AbroadTrunkDropped(HomeTrunkDropped(draft, cc), cc, dials)
  {
    digits := draft;
    HomeTrunkAt(digits, cc);
    if Starts(digits, cc) && |digits| > |cc| && digits[|cc|] == '0' {
      digits := cc + digits[|cc| + 1..];
    }
    DigitsOfDigits(digits);
    var abroad := CountryForE164(dials, digits);
    if abroad.Some? && abroad.value != cc && abroad.value !in TRUNK_ZERO_KEPT {
      DialIsThePrefix(dials, digits, abroad.value);
      var national := DropZeros(digits[|abroad.value|..]);
      digits := abroad.value + national;
    }
  }

  /** replace(/^0+/, "") */
  method DropZeros(s: string) returns (r: string)
    ensures r == ZerosDropped(s)
  {
    r := s;
    while Starts(r, "0")
      invariant ZerosDropped(r) == ZerosDropped(s)
      decreases |r|
    {
      r := r[1..];
    }
  }

  lemma DraftedDigits(plus: bool, d: string, cc: string)
    requires AllDigits(d) && AllDigits(cc)
    ensures AllDigits(Drafted(plus, d, cc))
  {}

  lemma HomeTrunkAt(d: string, cc: string)
    ensures Starts(d, cc + "0") <==> Starts(d, cc) && |d| > |cc| && d[|cc|] == '0'
  {
    if |d| > |cc| {
      assert d[..|cc| + 1] == d[..|cc|] + [d[|cc|]];
      assert (cc + "0")[..|cc|] == cc && (cc + "0")[|cc|] == '0';
    }
  }
}
