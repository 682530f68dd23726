/**
 * The string primitives the availability search relies on: ASCII lower-casing
 * (`toLowerCase`), substring search (`includes`) and `parseInt(s, 10)` with the
 * `|| 0` default applied to it.
 */
module Text {
  import opened Wrappers

  function LowerChar(c: char): char
  {
    if 'A' <= c <= 'Z' then (c as int + 32) as char else c
  }

  /** `toLowerCase`, restricted to the ASCII letters. */
  function Lower(s: string): (r: string)
    ensures |r| == |s|
    ensures forall i :: 0 <= i < |s| ==> r[i] == LowerChar(s[i])
  {
    if s == [] then [] else [LowerChar(s[0])] + Lower(s[1..])
  }

  /** Lower-casing a lower-cased string changes nothing. */
  lemma LowerIdempotent(s: string)
    ensures Lower(Lower(s)) == Lower(s)
  {
    assert forall i :: 0 <= i < |s| ==> LowerChar(LowerChar(s[i])) == LowerChar(s[i]);
  }

  /** `needle` occurs in `hay` starting at position `i`. */
  predicate OccursAt(hay: string, needle: string, i: nat)
  {
    i + |needle| <= |hay| && hay[i..i + |needle|] == needle
  }

  /** `hay.includes(needle)`, computed by trying each start position in turn. */
  function Includes(hay: string, needle: string): (b: bool)
    ensures needle == [] ==> b
    ensures b ==> |needle| <= |hay|
    decreases |hay|
  {
    if needle <= hay then true
    else if hay == [] then false
    else Includes(hay[1..], needle)
  }

  /** `Includes` holds exactly when the needle occurs at some position of the haystack. */
  lemma {:induction false} IncludesIffOccurs(hay: string, needle: string)
    ensures Includes(hay, needle) <==> exists i: nat :: OccursAt(hay, needle, i)
    decreases |hay|
  {
    if needle <= hay {
      assert OccursAt(hay, needle, 0);
    } else if hay == [] {
      assert forall i: nat :: OccursAt(hay, needle, i) ==> needle == [];
    } else {
      IncludesIffOccurs(hay[1..], needle);
      assert forall i: nat :: OccursAt(hay[1..], needle, i) <==> OccursAt(hay, needle, i + 1);
      assert OccursAt(hay, needle, 0) ==> needle <= hay;
      assert forall i: nat :: OccursAt(hay, needle, i) && i > 0 ==> OccursAt(hay[1..], needle, i - 1);
    }
  }

  // ---------------------------------------------------------------------------
  // parseInt(s, 10)

  /** The white-space and line-terminator characters `parseInt` skips (Unicode
      space separators other than U+00A0 are not modelled). */
  predicate IsSpace(c: char)
  {
    c == ' ' || c == '\t' || c == '\n' || c == '\r' || c == '\U{000B}' || c == '\U{000C}'
    || c == '\U{00A0}' || c == '\U{FEFF}' || c == '\U{2028}' || c == '\U{2029}'
  }

  predicate IsDigit(c: char)
  {
    '0' <= c <= '9'
  }

  predicate AllDigits(s: string)
  {
    forall i :: 0 <= i < |s| ==> IsDigit(s[i])
  }

  /** Drops the leading white space. */
  function TrimStart(s: string): (r: string)
    ensures |r| <= |s| && r == s[|s| - |r|..]
    ensures forall j :: 0 <= j < |s| - |r| ==> IsSpace(s[j])
    ensures r == [] || !IsSpace(r[0])
  {
    if s != [] && IsSpace(s[0]) then TrimStart(s[1..]) else s
  }

  /** The length of the longest all-digit prefix. */
  function LeadingDigits(s: string): (n: nat)
    ensures n <= |s| && AllDigits(s[..n])
    ensures n == |s| || !IsDigit(s[n])
  {
    if s != [] && IsDigit(s[0]) then 1 + LeadingDigits(s[1..]) else 0
  }

  function DigitValue(c: char): nat
    requires IsDigit(c)
  {
    c as int - '0' as int
  }

  /** The value of a decimal numeral, most significant digit first. */
  function DigitsValue(d: string): nat
    requires AllDigits(d)
  {
    if d == [] then 0 else DigitsValue(d[..|d| - 1]) * 10 + DigitValue(d[|d| - 1])
  }

  /** A run of decimal digits, or `NaN` (here `None`) when the text does not start with one. */
  function ParseDigits(u: string): Option<int>
  {
    var n := LeadingDigits(u);
    if n == 0 then None else Some(DigitsValue(u[..n]))
  }

  function Negate(v: Option<int>): Option<int>
  {
    match v
    case None => None
    case Some(x) => Some(-x)
  }

  /** `parseInt(s, 10)`: skip white space, take an optional sign, then the longest
      run of decimal digits; with no digit there the result is `NaN` (here `None`). */
  function ParseInt(s: string): Option<int>
  {
    ParseSigned(TrimStart(s))
  }

  /** The optional sign and the digits, once the white space is skipped. */
  function ParseSigned(t: string): Option<int>
  {
    if t != [] && t[0] == '-' then Negate(ParseDigits(t[1..]))
    else if t != [] && t[0] == '+' then ParseDigits(t[1..])
    else ParseDigits(t)
  }

  /** `parseInt(field?.textContent, 10) || 0`: a missing field (`undefined`) and
      `NaN` both become 0; so does `-0`, which as an integer is 0 anyway. */
  function ParseCount(field: Option<string>): (n: int)
    ensures field.Some? && ParseInt(field.value).Some? ==> n == ParseInt(field.value).value
    ensures n != 0 ==> field.Some? && ParseInt(field.value) == Some(n)
  {
    match field
    case None => 0
    case Some(s) =>
      match ParseInt(s)
      case None => 0
      case Some(v) => v
  }

  // ---------------------------------------------------------------------------
  // Partner of ParseInt: the decimal rendering of a natural number

  function DigitChar(d: nat): char
    requires d < 10
  {
    ('0' as int + d) as char
  }

  /** The decimal numeral of `n`, without leading zeros. */
  function Decimal(n: nat): string
  {
    if n < 10 then [DigitChar(n)] else Decimal(n / 10) + [DigitChar(n % 10)]
  }

  lemma {:induction false} DecimalValue(n: nat)
    ensures |Decimal(n)| > 0 && AllDigits(Decimal(n))
    ensures DigitsValue(Decimal(n)) == n
  {
    if n >= 10 {
      DecimalValue(n / 10);
      var d := Decimal(n);
      assert d[..|d| - 1] == Decimal(n / 10);
    }
  }

  lemma {:induction false} TrimSpaces(pad: string, t: string)
    requires forall i :: 0 <= i < |pad| ==> IsSpace(pad[i])
    requires t == [] || !IsSpace(t[0])
    ensures TrimStart(pad + t) == t
    decreases |pad|
  {
    if pad != [] {
      assert (pad + t)[1..] == pad[1..] + t;
      TrimSpaces(pad[1..], t);
    }
  }

  lemma {:induction false} DigitRun(d: string, rest: string)
    requires AllDigits(d)
    requires rest == [] || !IsDigit(rest[0])
    ensures LeadingDigits(d + rest) == |d|
    ensures (d + rest)[..|d|] == d
    decreases |d|
  {
    if d != [] {
      assert (d + rest)[1..] == d[1..] + rest;
      DigitRun(d[1..], rest);
    }
  }

  lemma SeqReassoc(pad: string, d: string, rest: string)
    ensures pad + "-" + d + rest == pad + ("-" + (d + rest))
  {
  }

  /** Past the white space, text starting with a digit is read as a digit run. */
  lemma UnsignedRun(pad: string, u: string)
    requires forall i :: 0 <= i < |pad| ==> IsSpace(pad[i])
    requires u != [] && IsDigit(u[0])
    ensures ParseInt(pad + u) == ParseDigits(u)
  {
    TrimSpaces(pad, u);
  }

  /** Past the white space, a minus sign negates whatever the digit run after it reads as. */
  lemma NegativeRun(pad: string, u: string)
    requires forall i :: 0 <= i < |pad| ==> IsSpace(pad[i])
    ensures ParseInt(pad + ("-" + u)) == Negate(ParseDigits(u))
  {
    var t := "-" + u;
    assert t[0] == '-' && t[1..] == u;
    TrimSpaces(pad, t);
  }

  /** A run of digits after white space and before non-digit text reads as its value. */
  lemma ParseIntOfNumeral(pad: string, d: string, rest: string)
    requires forall i :: 0 <= i < |pad| ==> IsSpace(pad[i])
    requires d != [] && AllDigits(d)
    requires rest == [] || !IsDigit(rest[0])
    ensures ParseInt(pad + d + rest) == Some(DigitsValue(d))
  {
    assert pad + d + rest == pad + (d + rest);
    DigitRun(d, rest);
    UnsignedRun(pad, d + rest);
  }

  /** parseInt reads back the decimal numeral of `n`, whatever white space
      precedes it and whatever non-digit text follows it. */
  lemma ParseIntOfDecimal(pad: string, n: nat, rest: string)
    requires forall i :: 0 <= i < |pad| ==> IsSpace(pad[i])
    requires rest == [] || !IsDigit(rest[0])
    ensures ParseInt(pad + Decimal(n) + rest) == Some(n)
    ensures ParseCount(Some(pad + Decimal(n) + rest)) == n
  {
    DecimalValue(n);
    ParseIntOfNumeral(pad, Decimal(n), rest);
  }

  lemma NegateSome(x: int)
    ensures Negate(Some(x)) == Some(-x)
  {
  }

  /** A minus sign before a run of digits negates its value. */
  lemma ParseIntOfNegativeNumeral(pad: string, d: string, rest: string)
    requires forall i :: 0 <= i < |pad| ==> IsSpace(pad[i])
    requires d != [] && AllDigits(d)
    requires rest == [] || !IsDigit(rest[0])
    ensures ParseInt(pad + "-" + d + rest) == Negate(Some(DigitsValue(d)))
  {
    SeqReassoc(pad, d, rest);
    DigitRun(d, rest);
    NegativeRun(pad, d + rest);
  }

  /** A leading minus sign negates the value read: the code reads "-3" as a
      count of -3 and never rejects it. */
  lemma ParseIntOfNegativeDecimal(pad: string, n: nat, rest: string)
    requires forall i :: 0 <= i < |pad| ==> IsSpace(pad[i])
    requires rest == [] || !IsDigit(rest[0])
    ensures ParseInt(pad + "-" + Decimal(n) + rest) == Some(-(n as int))
  {
    DecimalValue(n);
    ParseIntOfNegativeNumeral(pad, Decimal(n), rest);
    NegateSome(n);
  }

  /** Text without any digit (an empty cell, "N/A", "--") is NaN, so its count is 0. */
  lemma NoDigitsIsNaN(s: string)
    requires forall i :: 0 <= i < |s| ==> !IsDigit(s[i])
    ensures ParseInt(s) == None
    ensures ParseCount(Some(s)) == 0
  {
    var t := TrimStart(s);
    var u := if t != [] && (t[0] == '-' || t[0] == '+') then t[1..] else t;
    if u != [] {
      assert u[0] in s;
    }
  }
}
