/** The few JavaScript string built-ins the authentication service relies on:
    `String.prototype.toLowerCase` (on the Latin-1 letters), the Latin-1 range
    that `btoa` accepts, and the decimal rendering of `Date.now()` inside a
    template literal. */
module JsText {

  /** An upper-case letter whose lower-case form is one code point 0x20 further
      on: 'A'..'Z' and the Latin-1 letters U+00C0..U+00DE except U+00D7 (the
      multiplication sign). */
  predicate IsUpper(c: char) {
    ('A' <= c <= 'Z') || ('À' <= c <= 'Þ' && c != '×')
  }

  /** The lower-case letters those upper-case letters map to. */
  predicate IsLowerLetter(c: char) {
    ('a' <= c <= 'z') || ('à' <= c <= 'þ' && c != '÷')
  }

  /** A string in which no letter is upper-case any more. */
  predicate IsLowerCase(s: string) {
    forall i :: 0 <= i < |s| ==> !IsUpper(s[i])
  }

  function LowerChar(c: char): (d: char)
    ensures !IsUpper(d)
    ensures IsUpper(c) ==> IsLowerLetter(d) && d != c
    ensures !IsUpper(c) ==> d == c
  {
    if IsUpper(c) then (c as int + 0x20) as char else c
  }

  /** The inverse of LowerChar on the letters it changes. */
  function UpperChar(c: char): (d: char)
    requires IsLowerLetter(c)
    ensures IsUpper(d)
  {
    (c as int - 0x20) as char
  }

  /** `s.toLowerCase()`, character by character. */
  function ToLower(s: string): (r: string)
    ensures |r| == |s|
    ensures IsLowerCase(r)
    ensures forall i :: 0 <= i < |s| && !IsUpper(s[i]) ==> r[i] == s[i]
    ensures forall i :: 0 <= i < |s| && IsUpper(s[i]) ==> IsLowerLetter(r[i]) && UpperChar(r[i]) == s[i]
  {
    if s == [] then [] else [LowerChar(s[0])] + ToLower(s[1..])
  }

  /** Lower-casing a string that is already lower-case changes nothing, so
      lower-casing twice is lower-casing once. */
  lemma ToLowerOfLowerCase(s: string)
    requires IsLowerCase(s)
    ensures ToLower(s) == s
  {
  }

  lemma ToLowerIdempotent(s: string)
    ensures ToLower(ToLower(s)) == ToLower(s)
  {
    ToLowerOfLowerCase(ToLower(s));
  }

  /** Two strings that differ only in the case of their letters lower-case to
      the same string. */
  lemma ToLowerIgnoresCase(s: string, t: string)
    requires |s| == |t|
    requires forall i :: 0 <= i < |s| ==> s[i] == t[i] || LowerChar(s[i]) == t[i] || s[i] == LowerChar(t[i])
    ensures ToLower(s) == ToLower(t)
  {
  }

  /** `btoa` accepts only strings whose every character is below U+0100. */
  predicate IsLatin1(s: string) {
    forall i :: 0 <= i < |s| ==> s[i] <= 'ÿ'
  }

  function DigitChar(d: nat): (c: char)
    requires d < 10
    ensures '0' <= c <= '9'
  {
    ('0' as int + d) as char
  }

  /** The decimal digits of `n`, as a number is rendered inside a template literal. */
  function Decimal(n: nat): (s: string)
    ensures |s| >= 1
    ensures forall i :: 0 <= i < |s| ==> '0' <= s[i] <= '9'
    ensures |s| > 1 ==> s[0] != '0'
  {
    if n < 10 then [DigitChar(n)] else Decimal(n / 10) + [DigitChar(n % 10)]
  }

  /** Reads a string of decimal digits back as a number. */
  function DecimalValue(s: string): (n: nat)
    requires forall i :: 0 <= i < |s| ==> '0' <= s[i] <= '9'
  {
    if s == [] then 0 else 10 * DecimalValue(s[..|s| - 1]) + (s[|s| - 1] as int - '0' as int)
  }

  /** The rendering loses nothing: the digits read back as the number. */
  lemma {:induction false} DecimalRoundTrip(n: nat)
    ensures DecimalValue(Decimal(n)) == n
  {
    var s := Decimal(n);
    if n >= 10 {
      DecimalRoundTrip(n / 10);
      assert s[..|s| - 1] == Decimal(n / 10);
    }
  }

  lemma DecimalIsLatin1(n: nat)
    ensures IsLatin1(Decimal(n))
  {
  }

  /** A concatenation is acceptable to `btoa` exactly when both parts are. */
  lemma Latin1Append(s: string, t: string)
    ensures IsLatin1(s + t) <==> IsLatin1(s) && IsLatin1(t)
  {
    if IsLatin1(s + t) {
      forall i | 0 <= i < |s| ensures s[i] <= 'ÿ' {
        assert (s + t)[i] == s[i];
      }
      forall i | 0 <= i < |t| ensures t[i] <= 'ÿ' {
        assert (s + t)[|s| + i] == t[i];
      }
    }
  }
}
