/**
 * String helpers shared by the model: ASCII lower-casing, the byte-wise
 * lexicographic order a sorted set uses for its members, JavaScript's
 * `String(n)` and `parseInt(s, 10)` on integers, and the truthiness
 * fallback `a || b` on strings.
 */
module Strings {
  import opened Wrappers

  // ---------------------------------------------------------------------
  // Truthiness

  /** `a || b` on strings: the empty string is falsy. */
  function OrElse(a: string, b: string): (r: string)
    ensures r == a || r == b
    ensures a != "" ==> r == a
    ensures r == "" ==> a == "" && b == ""
  {
    if a != "" then a else b
  }

  /** `o || b` where `o` may be undefined. */
  function OptOrElse(o: Option<string>, b: string): (r: string)
    ensures o.Some? && o.value != "" ==> r == o.value
    ensures (o.None? || o.value == "") ==> r == b
  {
    if o.Some? then OrElse(o.value, b) else b
  }

  // ---------------------------------------------------------------------
  // ASCII case

  predicate IsUpper(c: char) { 'A' <= c <= 'Z' }

  function LowerChar(c: char): (r: char)
    ensures !IsUpper(r)
    ensures IsUpper(c) ==> 'a' <= r <= 'z'
    ensures !IsUpper(c) ==> r == c
  {
    if IsUpper(c) then (c as int - 'A' as int + 'a' as int) as char else c
  }

  /** `s.toLowerCase()`, restricted to ASCII letters. */
  function Lower(s: string): (r: string)
    ensures |r| == |s|
    ensures forall i :: 0 <= i < |s| ==> r[i] == LowerChar(s[i])
  {
    seq(|s|, i requires 0 <= i < |s| => LowerChar(s[i]))
  }

  lemma LowerIdempotent(s: string)
    ensures Lower(Lower(s)) == Lower(s)
  {
  }

  lemma LowerConcat(a: string, b: string)
    ensures Lower(a + b) == Lower(a) + Lower(b)
  {
  }

  /** Lower-casing never produces or removes a given non-letter character. */
  lemma LowerKeepsChar(s: string, c: char)
    requires !IsUpper(c) && !('a' <= c <= 'z')
    ensures c in Lower(s) <==> c in s
  {
    if c in s {
      var i :| 0 <= i < |s| && s[i] == c;
      assert Lower(s)[i] == c;
    }
    if c in Lower(s) {
      var i :| 0 <= i < |s| && Lower(s)[i] == c;
      assert s[i] == c;
    }
  }

  // ---------------------------------------------------------------------
  // Lexicographic order (memcmp order on the characters' code points)

  predicate LexLess(a: string, b: string)
    decreases |a|
  {
    if |b| == 0 then false
    else if |a| == 0 then true
    else if a[0] != b[0] then a[0] < b[0]
    else LexLess(a[1..], b[1..])
  }

  lemma {:induction false} LexIrreflexive(a: string)
    ensures !LexLess(a, a)
    decreases |a|
  {
    if |a| > 0 {
      LexIrreflexive(a[1..]);
    }
  }

  lemma {:induction false} LexTransitive(a: string, b: string, c: string)
    requires LexLess(a, b) && LexLess(b, c)
    ensures LexLess(a, c)
    decreases |a|
  {
    if |a| > 0 && a[0] == b[0] && b[0] == c[0] {
      LexTransitive(a[1..], b[1..], c[1..]);
    }
  }

  lemma {:induction false} LexTotal(a: string, b: string)
    requires a != b
    ensures LexLess(a, b) || LexLess(b, a)
    decreases |a|
  {
    if |a| > 0 && |b| > 0 && a[0] == b[0] {
      assert a == [a[0]] + a[1..] && b == [b[0]] + b[1..];
      LexTotal(a[1..], b[1..]);
    }
  }

  lemma LexAsymmetric(a: string, b: string)
    requires LexLess(a, b)
    ensures !LexLess(b, a)
  {
    if LexLess(b, a) {
      LexTransitive(a, b, a);
      LexIrreflexive(a);
    }
  }

  /** A proper prefix sorts before the longer string. */
  lemma {:induction false} LexPrefix(p: string, s: string)
    requires p <= s && p != s
    ensures LexLess(p, s)
    decreases |p|
  {
    if |p| > 0 {
      LexPrefix(p[1..], s[1..]);
    }
  }

  // ---------------------------------------------------------------------
  // Decimal integers

  predicate IsDigit(c: char) { '0' <= c <= '9' }

  function DigitChar(d: nat): (c: char)
    requires d < 10
    ensures IsDigit(c) && c as int - '0' as int == d
  {
    (d + '0' as int) as char
  }

  function DigitValue(c: char): (d: nat)
    requires IsDigit(c)
    ensures d < 10
  {
    c as int - '0' as int
  }

  /** `String(n)` for a non-negative integer. */
  function NatToDecimal(n: nat): (r: string)
    ensures |r| >= 1
    ensures forall i :: 0 <= i < |r| ==> IsDigit(r[i])
    decreases n
  {
    if n < 10 then [DigitChar(n)] else NatToDecimal(n / 10) + [DigitChar(n % 10)]
  }

  /** `String(n)` for an integer: a minus sign, then the decimal digits. */
  function IntToString(n: int): string
  {
    if n < 0 then "-" + NatToDecimal(-n) else NatToDecimal(n)
  }

  /** The number of leading decimal digits of `s`. */
  function LeadingDigits(s: string): (k: nat)
    ensures k <= |s|
    ensures forall i :: 0 <= i < k ==> IsDigit(s[i])
    ensures k < |s| ==> !IsDigit(s[k])
  {
    if |s| == 0 || !IsDigit(s[0]) then 0 else 1 + LeadingDigits(s[1..])
  }

  /** The value of a string made of decimal digits only. */
  function DigitsValue(s: string): nat
    requires forall i :: 0 <= i < |s| ==> IsDigit(s[i])
  {
    if |s| == 0 then 0 else DigitsValue(s[..|s| - 1]) * 10 + DigitValue(s[|s| - 1])
  }

  /** The ASCII white space `parseInt` skips before the number (tab to carriage return, and space). */
  predicate IsSpace(c: char)
  {
    c == ' ' || '\t' <= c <= '\r'
  }

  /**
   * `parseInt(s, 10)`: leading white space, an optional sign, then the
   * longest run of digits; `None` (NaN) when there is no digit.
   */
  function ParseInt(s: string): Option<int>
    decreases |s|
  {
    if |s| > 0 && IsSpace(s[0]) then ParseInt(s[1..]) else ParseSigned(s)
  }

  /** `parseInt` once the white space is skipped: an optional sign, then the longest run of digits. */
  function ParseSigned(s: string): Option<int>
  {
    var signed := |s| > 0 && (s[0] == '-' || s[0] == '+');
    var body := if signed then s[1..] else s;
    var k := LeadingDigits(body);
    var magnitude: int := if k == 0 then 0 else DigitsValue(body[..k]);
    if k == 0 then None
    else if |s| > 0 && s[0] == '-' then Some(-magnitude)
    else Some(magnitude)
  }

  lemma {:induction false} DigitsValueOfDecimal(n: nat)
    ensures DigitsValue(NatToDecimal(n)) == n
    decreases n
  {
    if n >= 10 {
      var r := NatToDecimal(n);
      DigitsValueOfDecimal(n / 10);
      assert r[..|r| - 1] == NatToDecimal(n / 10);
    }
  }

  lemma {:induction false} LeadingDigitsAll(s: string)
    requires forall i :: 0 <= i < |s| ==> IsDigit(s[i])
    ensures LeadingDigits(s) == |s|
    decreases |s|
  {
    if |s| > 0 {
      LeadingDigitsAll(s[1..]);
    }
  }

  /** A run of digits is read as its value. */
  lemma UnsignedDigits(s: string)
    requires |s| > 0 && forall i :: 0 <= i < |s| ==> IsDigit(s[i])
    ensures ParseSigned(s) == Some(DigitsValue(s) as int)
  {
    LeadingDigitsAll(s);
    assert s[..|s|] == s;
  }

  /** A minus sign followed by a run of digits is read as the negated value. */
  lemma NegatedDigits(t: string, s: string)
    requires |t| > 0 && t[0] == '-' && t[1..] == s
    requires |s| > 0 && forall i :: 0 <= i < |s| ==> IsDigit(s[i])
    ensures ParseSigned(t) == Some(-(DigitsValue(s) as int))
  {
    LeadingDigitsAll(s);
    assert s[..|s|] == s;
  }

  /** Without leading white space `parseInt` reads the sign and the digits at once. */
  lemma ParseIntUnspaced(s: string)
    requires |s| > 0 && !IsSpace(s[0])
    ensures ParseInt(s) == ParseSigned(s)
  {
  }

  /** `parseInt(String(n), 10) == n`: a stored integer reads back unchanged. */
  lemma ParseIntToString(n: int)
    ensures ParseInt(IntToString(n)) == Some(n)
  {
    var t := IntToString(n);
    var m: nat := if n < 0 then -n else n;
    var s := NatToDecimal(m);
    DigitsValueOfDecimal(m);
    if n < 0 {
      assert t == "-" + s;
      NegatedDigits(t, s);
    } else {
      UnsignedDigits(s);
    }
    ParseIntUnspaced(t);
  }
}
