/**
 Palette selection: how the keydown handler turns a key into a block type.

 The handler tests `e.key >= "1" && e.key <= "9"`, a comparison of two
 strings, and then takes `parseInt(e.key) - 1`. Both are modelled on
 strings: JsLess is JavaScript's ordering of strings, and LeadingNumber
 is what parseInt returns for a string that starts with a digit 1 to 9
 (the only strings the guard lets through).
 */
module Palette {
  import opened Keys

  /** JavaScript's `a < b` on strings: lexicographic, a proper prefix comes first. */
  function JsLess(a: string, b: string): (r: bool)
    ensures r ==> |b| > 0
    ensures r && |a| > 0 ==> a[0] <= b[0]
    ensures |a| > 0 && |b| > 0 && a[0] < b[0] ==> r
  {
    if |b| == 0 then false
    else if |a| == 0 then true
    else if a[0] != b[0] then a[0] < b[0]
    else JsLess(a[1..], b[1..])
  }

  /**
   The guard `key >= "1" && key <= "9"`: it admits exactly the keys that
   start with 1 to 8, and the one key "9".
   */
  function IsSelectKey(key: string): (r: bool)
    ensures r <==> (|key| > 0 && '1' <= key[0] <= '8') || key == "9"
  {
    SelectKeyShape(key);
    !JsLess(key, "1") && !JsLess("9", key)
  }

  /** The maximal run of decimal digits at the start of s. */
  function LeadingDigits(s: string): (p: string)
    ensures p <= s && AllDigits(p)
    ensures |p| < |s| ==> !IsDigit(s[|p|])
  {
    if |s| > 0 && IsDigit(s[0]) then [s[0]] + LeadingDigits(s[1..]) else []
  }

  /**
   parseInt(s) for a string whose first character is a digit: the value of its
   leading run of digits. (Leading blanks, a sign and the "0x" prefix, which
   parseInt also accepts, cannot start a string the guard admits.)
   */
  function LeadingNumber(s: string): (n: nat)
    ensures |s| > 0 && '1' <= s[0] <= '9' ==> n >= 1
    ensures |s| == 1 && IsDigit(s[0]) ==> n == DigitValue(s[0])
  {
    var p := LeadingDigits(s);
    assert |s| == 1 && IsDigit(s[0]) ==> p == s && p[..0] == [] by {
      if |s| == 1 && IsDigit(s[0]) {
        assert s[1..] == [];
      }
    }
    if |p| > 0 && p[0] != '0' then
      NumberOfNonZeroLead(p);
      DigitsValue(p)
    else
      DigitsValue(p)
  }

  /** selectedBlock after a keydown carrying `key`, when it was `current` before. */
  function KeySelection(key: string, current: int): (r: int)
    ensures (|key| > 0 && '1' <= key[0] <= '8') || key == "9" ==> r == LeadingNumber(key) - 1
    ensures !((|key| > 0 && '1' <= key[0] <= '8') || key == "9") ==> r == current
  {
    if IsSelectKey(key) then LeadingNumber(key) - 1 else current
  }

  /** The two string comparisons of the guard, read character by character. */
  lemma {:induction false} SelectKeyShape(key: string)
    ensures !JsLess(key, "1") && !JsLess("9", key) <==> (|key| > 0 && '1' <= key[0] <= '8') || key == "9"
  {
    if |key| > 1 && key[0] == '9' {
      assert JsLess("9"[1..], key[1..]);
    }
  }

  /** Keys "1" to "9" select palette entries 0 to 8. */
  lemma DigitKeySelects(d: char, current: int)
    requires '1' <= d <= '9'
    ensures KeySelection([d], current) == d as int - '1' as int
    ensures 0 <= KeySelection([d], current) <= 8
  {
  }

  /** Every other one-character key leaves the selection unchanged. */
  lemma OtherKeyIgnored(k: char, current: int)
    requires !('1' <= k <= '9')
    ensures KeySelection([k], current) == current
  {
  }

  /** Whatever key passes the guard, the new selection is not negative. */
  lemma SelectionNotNegative(key: string, current: int)
    requires IsSelectKey(key)
    ensures KeySelection(key, current) >= 0
  {
  }

  /** A digit string whose first digit is not 0 has a value of at least 1. */
  lemma {:induction false} NumberOfNonZeroLead(p: string)
    requires |p| > 0 && AllDigits(p) && p[0] != '0'
    ensures DigitsValue(p) >= 1
  {
    if |p| > 1 {
      NumberOfNonZeroLead(p[..|p| - 1]);
    }
  }

}
