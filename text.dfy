/**
 * The string operations app.py applies itself: lower-casing, splitting off
 * the text after the last dot, rendering a number in decimal and slicing a
 * prefix.
 */
module Text {

  /** A character's lower-case form; only the ASCII letters are mapped. */
  function LowerChar(c: char): char
  {
    if 'A' <= c <= 'Z' then (c as int - 'A' as int + 'a' as int) as char else c
  }

  /** The string lower-cased character by character. */
  function Lower(s: string): string
  {
    seq(|s|, i requires 0 <= i < |s| => LowerChar(s[i]))
  }

  /** Lower-casing neither creates nor removes a dot. */
  lemma LowerKeepsDots(s: string)
    ensures '.' in Lower(s) <==> '.' in s
  {
    if '.' in Lower(s) {
      var i :| 0 <= i < |s| && Lower(s)[i] == '.';
      assert s[i] == '.';
    }
    if '.' in s {
      var i :| 0 <= i < |s| && s[i] == '.';
      assert Lower(s)[i] == '.';
    }
  }

  /** Lower-casing twice is lower-casing once. */
  lemma LowerIdempotent(s: string)
    ensures Lower(Lower(s)) == Lower(s)
  {
    assert forall i :: 0 <= i < |s| ==> Lower(Lower(s))[i] == Lower(s)[i];
  }

  /**
   * The text after the last dot: `s.rsplit('.', 1)[1]` for a string that
   * contains a dot. It is a suffix of `s`, it is preceded by a dot and it
   * holds no dot itself.
   */
  function AfterLastDot(s: string): (r: string)
    requires '.' in s
    ensures |r| < |s| && s[|s| - |r| - 1] == '.'
    ensures r == s[|s| - |r|..]
    ensures '.' !in r
    decreases |s|
  {
    var last := s[|s| - 1];
    if last == '.' then ""
    else
      assert s == s[..|s| - 1] + [last];
      AfterLastDot(s[..|s| - 1]) + [last]
  }

  /** Splitting `stem.ext` at its last dot gives back `ext` when `ext` holds no dot. */
  lemma AfterLastDotOfParts(stem: string, ext: string)
    requires '.' !in ext
    ensures '.' in stem + "." + ext
    ensures AfterLastDot(stem + "." + ext) == ext
  {
    var s := stem + "." + ext;
    assert s[|stem|] == '.';
    var r := AfterLastDot(s);
    assert |r| == |ext|;
    assert s[|s| - |ext|..] == ext;
  }

  /** The decimal digit character for `d`. */
  function DigitChar(d: nat): char
    requires d < 10
  {
    ('0' as int + d) as char
  }

  predicate IsDigit(c: char)
  {
    '0' <= c <= '9'
  }

  predicate AllDigits(s: string)
  {
    forall i :: 0 <= i < |s| ==> IsDigit(s[i])
  }

  /**
   * `str(n)` for a natural number: at least one digit, nothing but digits,
   * and no leading zero unless the number is zero.
   */
  function Decimal(n: nat): (r: string)
    ensures |r| >= 1 && AllDigits(r)
    ensures r[0] == '0' ==> n == 0
  {
    if n < 10 then [DigitChar(n)] else Decimal(n / 10) + [DigitChar(n % 10)]
  }

  /** The number a string of decimal digits denotes. */
  function DecimalValue(s: string): nat
    requires AllDigits(s)
  {
    if s == [] then 0
    else DecimalValue(s[..|s| - 1]) * 10 + (s[|s| - 1] as int - '0' as int)
  }

  /** Reading back what `Decimal` wrote gives the number again. */
  lemma {:induction false} DecimalRoundTrip(n: nat)
    ensures DecimalValue(Decimal(n)) == n
  {
    if n >= 10 {
      var r := Decimal(n);
      assert r[..|r| - 1] == Decimal(n / 10);
      DecimalRoundTrip(n / 10);
    }
  }

  /** Distinct numbers are rendered as distinct strings. */
  lemma DecimalInjective(n: nat, m: nat)
    requires n != m
    ensures Decimal(n) != Decimal(m)
  {
    DecimalRoundTrip(n);
    DecimalRoundTrip(m);
  }

  /** The slice `s[:n]`: the longest prefix of `s` of length at most `n`. */
  function Take(s: string, n: nat): (r: string)
    ensures r <= s
    ensures |r| == if |s| <= n then |s| else n
  {
    if |s| <= n then s else s[..n]
  }
}
