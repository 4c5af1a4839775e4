/**
 The dictionary key of a block cell.

 The block dictionary of the game is keyed by the template string
 `${x},${y},${z}`: the three coordinates written as JavaScript writes a
 number, separated by commas. This module models that key and proves that
 it is injective on integer triples, so that a dictionary keyed by these
 strings behaves exactly like a map keyed by the triples themselves (which
 is how class Game.World stores the blocks).

 Injectivity is proved by exhibiting a decoder, ParseKey, that recovers
 the triple from its key.
 */
module Keys {
  import opened Options

  /** A cell of the voxel grid: (x, y, z). */
  type Coord = (int, int, int)

  predicate IsDigit(c: char) {
    '0' <= c <= '9'
  }

  predicate AllDigits(s: string) {
    forall i :: 0 <= i < |s| ==> IsDigit(s[i])
  }

  function DigitChar(d: int): (c: char)
    requires 0 <= d < 10
    ensures IsDigit(c) && DigitValue(c) == d
  {
    ('0' as int + d) as char
  }

  function DigitValue(c: char): (d: int)
    requires IsDigit(c)
    ensures 0 <= d < 10
  {
    c as int - '0' as int
  }

  /** The decimal digits of a natural number, most significant first. */
  function NatToString(n: nat): (s: string)
    ensures |s| >= 1 && AllDigits(s)
    decreases n
  {
    if n < 10 then [DigitChar(n)] else NatToString(n / 10) + [DigitChar(n % 10)]
  }

  /**
   How a template literal writes an integer-valued number: a minus sign for
   negative values, then the decimal digits of the magnitude.
   */
  function IntToString(n: int): (s: string)
    ensures |s| >= 1 && ',' !in s
    ensures s[0] == '-' <==> n < 0
  {
    if n < 0 then "-" + NatToString(-n) else NatToString(n)
  }

  /** The key `${x},${y},${z}` of cell c: three numbers and exactly two commas. */
  function Key(c: Coord): (k: string)
    ensures |k| >= 5
    ensures multiset(k)[','] == 2
  {
    IntToString(c.0) + "," + (IntToString(c.1) + "," + IntToString(c.2))
  }

  // ---------------------------------------------------------------------------
  // Decoding, the inverse of Key

  /** The value of a string of decimal digits. */
  function DigitsValue(s: string): nat
    requires AllDigits(s)
  {
    if |s| == 0 then 0 else DigitsValue(s[..|s| - 1]) * 10 + DigitValue(s[|s| - 1])
  }

  /** Reads back an integer written by IntToString. */
  function ParseInt(s: string): Option<int>
  {
    if |s| >= 2 && s[0] == '-' && AllDigits(s[1..]) then
      var magnitude: int := DigitsValue(s[1..]);
      Some(-magnitude)
    else if |s| >= 1 && AllDigits(s) then
      Some(DigitsValue(s))
    else
      None
  }

  /** The index of the first comma in s, or |s| when there is none. */
  function IndexOfComma(s: string): (i: nat)
    ensures i <= |s|
    ensures i < |s| ==> s[i] == ','
    ensures forall j :: 0 <= j < i ==> s[j] != ','
  {
    if |s| == 0 then 0 else if s[0] == ',' then 0 else 1 + IndexOfComma(s[1..])
  }

  /** Splits a key at its two commas and reads the three coordinates. */
  function ParseKey(k: string): (r: Option<Coord>)
  {
    var i := IndexOfComma(k);
    if i == |k| then None
    else
      var rest := k[i + 1..];
      var j := IndexOfComma(rest);
      if j == |rest| then None
      else
        match (ParseInt(k[..i]), ParseInt(rest[..j]), ParseInt(rest[j + 1..]))
        case (Some(x), Some(y), Some(z)) => Some((x, y, z))
        case _ => None
  }

  // ---------------------------------------------------------------------------
  // Round trips

  lemma {:induction false} NatRoundTrip(n: nat)
    ensures DigitsValue(NatToString(n)) == n
    decreases n
  {
    if n >= 10 {
      var s := NatToString(n / 10);
      var t := s + [DigitChar(n % 10)];
      assert t[..|t| - 1] == s;
      NatRoundTrip(n / 10);
    }
  }

  lemma IntRoundTrip(n: int)
    ensures ParseInt(IntToString(n)) == Some(n)
  {
    if n < 0 {
      var digits := NatToString(-n);
      var s := "-" + digits;
      assert s == IntToString(n) && s[1..] == digits;
      NatRoundTrip(-n);
      var magnitude: int := DigitsValue(digits);
      assert ParseInt(s) == Some(-magnitude);
    } else {
      NatRoundTrip(n);
    }
  }

  /** A comma-free prefix followed by a comma is found again by IndexOfComma. */
  lemma CommaAfter(s: string, t: string)
    requires ',' !in s
    ensures IndexOfComma(s + "," + t) == |s|
    ensures (s + "," + t)[..|s|] == s
    ensures (s + "," + t)[|s| + 1..] == t
  {
    var u := s + "," + t;
    assert u[|s|] == ',';
    assert forall j :: 0 <= j < |s| ==> u[j] == s[j];
  }

  lemma KeyRoundTrip(c: Coord)
    ensures ParseKey(Key(c)) == Some(c)
  {
    var sx, sy, sz := IntToString(c.0), IntToString(c.1), IntToString(c.2);
    var rest := sy + "," + sz;
    var k := sx + "," + rest;
    assert ParseKey(k) == Some(c) by {
      CommaAfter(sx, rest);
      assert IndexOfComma(k) == |sx| && k[..|sx|] == sx && k[|sx| + 1..] == rest;
      CommaAfter(sy, sz);
      assert IndexOfComma(rest) == |sy| && rest[..|sy|] == sy && rest[|sy| + 1..] == sz;
      IntRoundTrip(c.0);
      IntRoundTrip(c.1);
      IntRoundTrip(c.2);
      assert ParseInt(k[..|sx|]) == Some(c.0);
      assert ParseInt(rest[..|sy|]) == Some(c.1);
      assert ParseInt(rest[|sy| + 1..]) == Some(c.2);
    }
  }

  /** Distinct cells never share a dictionary entry. */
  lemma KeyInjective(a: Coord, b: Coord)
    ensures Key(a) == Key(b) <==> a == b
  {
    KeyRoundTrip(a);
    KeyRoundTrip(b);
  }

}
