/** Calling codes (packages/shared/src/countries.ts): any table of codes in which none begins another. */
module Countries {
  import opened Options
  import opened Text

  /** Codes whose national numbers really begin with 0. */
  const TRUNK_ZERO_KEPT: set<string> := {"39", "225", "241", "242"}

  predicate Starts(s: string, p: string) {
    |p| <= |s| && s[..|p|] == p
  }

  ghost predicate IsDial(d: string) {
    1 <= |d| <= 3 && AllDigits(d) && d[0] != '0'
  }

  ghost predicate ValidTable(dials: set<string>) {
    && (forall d :: d in dials ==> IsDial(d))
    && (forall d, e :: d in dials && e in dials && Starts(e, d) ==> d == e)
  }

  lemma StartsUnique(dials: set<string>, s: string, d: string, e: string)
    requires ValidTable(dials) && d in dials && e in dials && Starts(s, d) && Starts(s, e)
    ensures d == e
  {
    assert |d| <= |e| ==> s[..|e|][..|d|] == s[..|d|];
    assert |e| <= |d| ==> s[..|d|][..|e|] == s[..|e|];
  }

  /** The code a number begins with, if any. */
  function DialOf(dials: set<string>, digits: string): Option<string> {
    if Slice(digits, 1) in dials then Some(Slice(digits, 1))
    else if Slice(digits, 2) in dials then Some(Slice(digits, 2))
    else if Slice(digits, 3) in dials then Some(Slice(digits, 3))
    else None
  }

  /** digits.slice(0, n) */
  function Slice(digits: string, n: nat): string {
    if n <= |digits| then digits[..n] else digits
  }

  /** The code found is the one code of the table that the number begins with, whichever length is tried first. */
  lemma DialIsThePrefix(dials: set<string>, digits: string, d: string)
    requires ValidTable(dials)
    ensures DialOf(dials, digits) == Some(d) <==> d in dials && Starts(digits, d)
  {
    var o := DialOf(dials, digits);
    if d in dials && Starts(digits, d) {
      assert Slice(digits, |d|) == d;
      assert o.Some? && o.value in dials && Starts(digits, o.value);
      StartsUnique(dials, digits, d, o.value);
    }
  }

  method CountryForE164(dials: set<string>, e164OrDigits: string) returns (dial: Option<string>)
    ensures dial == DialOf(dials, Digits(e164OrDigits))
  {
    var digits := Digits(e164OrDigits);
    for len := 1 to 4
      invariant forall n :: 1 <= n < len ==> Slice(digits, n) !in dials
    {
      var code := Slice(digits, len);
      if code in dials { return Some(code); }
    }
    dial := None;
  }

  /** /^\s*(\+|00)/ */
  predicate IsInternational(input: string) {
    Starts(TrimStart(input), "+") || Starts(TrimStart(input), "00")
  }

  function OneZeroDropped(d: string): string {
    if Starts(d, "0") then d[1..] else d
  }

  function After(d: string, prefix: string): string {
    if Starts(d, prefix) then d[|prefix|..] else d
  }

  /** The national digits that an entry means for the country of `dial`. */
  function National(input: string, dial: string): string {
    var d := Digits(input);
    var n := if IsInternational(input) then After(After(d, "00"), dial) else d;
    Slice(if dial in TRUNK_ZERO_KEPT then n else OneZeroDropped(n), if |dial| <= 15 then 15 - |dial| else 0)
  }

  method NationalDigits(input: string, dial: string) returns (national: string)
    requires |dial| <= 15
    ensures national == National(input, dial)
  {
    var intl := IsInternational(input);
    var d := Digits(input);
    if intl {
      if Starts(d, "00") { d := d[2..]; }
      if Starts(d, dial) { d := d[|dial|..]; }
    }
    if Starts(d, "0") && dial !in TRUNK_ZERO_KEPT { d := d[1..]; }
    national := if |d| <= 15 - |dial| then d else d[..15 - |dial|];
  }

  function ToE164(dial: string, national: string): string {
    "+" + dial + national
  }
}
