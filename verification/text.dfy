/** Character-level helpers: substring search as `std::string::find`, and the
    decimal rendering `std::ostream` uses for integers and booleans. */
module Text {

  /** `s.find(sub) != std::string::npos` */
  predicate Contains(s: string, sub: string)
    decreases |s|
  {
    (|sub| <= |s| && s[..|sub|] == sub) || (|s| > 0 && Contains(s[1..], sub))
  }

  lemma {:induction false} ContainsItself(s: string)
    ensures Contains(s, s)
  {
  }

  /** Anything containing `sub` at the front of a suffix contains it. */
  lemma {:induction false} ContainsInfix(a: string, sub: string, b: string)
    ensures Contains(a + sub + b, sub)
    decreases |a|
  {
    if |a| == 0 {
      assert (a + sub + b)[..|sub|] == sub;
    } else {
      assert (a + sub + b)[1..] == a[1..] + sub + b;
      ContainsInfix(a[1..], sub, b);
    }
  }

  /** `sub` occurs in `s` at position `i`. */
  predicate At(s: string, sub: string, i: int) {
    0 <= i && i + |sub| <= |s| && s[i..i + |sub|] == sub
  }

  /** The search finds `sub` exactly when it occurs at some position. */
  lemma {:induction false} ContainsIffAt(s: string, sub: string)
    ensures Contains(s, sub) <==> exists i :: At(s, sub, i)
    decreases |s|
  {
    if Contains(s, sub) {
      if |sub| <= |s| && s[..|sub|] == sub {
        assert At(s, sub, 0);
      } else {
        ContainsIffAt(s[1..], sub);
        var i :| At(s[1..], sub, i);
        assert s[1..][i..i + |sub|] == s[i + 1..i + 1 + |sub|];
        assert At(s, sub, i + 1);
      }
    }
    if exists i :: At(s, sub, i) {
      var i :| At(s, sub, i);
      if i > 0 {
        assert s[1..][i - 1..i - 1 + |sub|] == s[i..i + |sub|];
        assert At(s[1..], sub, i - 1);
        ContainsIffAt(s[1..], sub);
      }
    }
  }

  /** A position where the first two characters disagree holds no match. */
  lemma NotAtMismatch(s: string, sub: string, i: int)
    requires |sub| >= 2
    requires 0 <= i && i + |sub| <= |s| ==> s[i] != sub[0] || s[i + 1] != sub[1]
    ensures !At(s, sub, i)
  {
  }

  /** A string lacking one of the pattern's characters cannot contain it. */
  lemma MissingCharacter(s: string, sub: string, k: nat)
    requires k < |sub| && sub[k] !in s
    ensures !Contains(s, sub)
  {
    forall i ensures !At(s, sub, i) {
      if 0 <= i && i + |sub| <= |s| {
        assert s[i..i + |sub|][k] == s[i + k];
        assert s[i + k] in s;
      }
    }
    ContainsIffAt(s, sub);
  }

  /** A string shorter than the pattern cannot contain it. */
  lemma {:induction false} ShortDoesNotContain(s: string, sub: string)
    requires |s| < |sub|
    ensures !Contains(s, sub)
    decreases |s|
  {
    if |s| > 0 {
      ShortDoesNotContain(s[1..], sub);
    }
  }

  predicate IsDigit(c: char) {
    '0' <= c <= '9'
  }

  predicate AllDigits(s: string) {
    forall i :: 0 <= i < |s| ==> IsDigit(s[i])
  }

  function DigitChar(d: nat): (c: char)
    requires d < 10
    ensures IsDigit(c)
  {
    ['0', '1', '2', '3', '4', '5', '6', '7', '8', '9'][d]
  }

  function DigitValue(c: char): (d: nat)
    requires IsDigit(c)
    ensures d < 10
  {
    (c as int - '0' as int) as nat
  }

  lemma DigitRoundTrip(d: nat)
    requires d < 10
    ensures DigitValue(DigitChar(d)) == d
  {
  }

  /** Decimal rendering of an unsigned counter (`ostream << size_t`). */
  function NatToString(n: nat): (r: string)
    ensures |r| > 0 && AllDigits(r)
    ensures |r| > 1 ==> r[0] != '0'
    decreases n
  {
    if n < 10 then [DigitChar(n)] else NatToString(n / 10) + [DigitChar(n % 10)]
  }

  /** Reads a string of decimal digits back as a number. */
  function ParseNat(s: string): nat
    requires AllDigits(s)
    decreases |s|
  {
    if |s| == 0 then 0 else ParseNat(s[..|s| - 1]) * 10 + DigitValue(s[|s| - 1])
  }

  /** Rendering then parsing gives back the counter. */
  lemma {:induction false} ParseRendered(n: nat)
    ensures ParseNat(NatToString(n)) == n
    decreases n
  {
    var r := NatToString(n);
    if n < 10 {
      DigitRoundTrip(n);
    } else {
      ParseRendered(n / 10);
      DigitRoundTrip(n % 10);
      assert r[..|r| - 1] == NatToString(n / 10);
    }
  }

  /** `ostream << long`: a minus sign then the magnitude. */
  function IntToString(i: int): string {
    if i < 0 then "-" + NatToString(-i) else NatToString(i)
  }

  /** `ostream << bool` without `std::boolalpha`. */
  function BoolToString(b: bool): string {
    if b then "1" else "0"
  }

  predicate EndsWith(s: string, suffix: string) {
    |suffix| <= |s| && s[|s| - |suffix|..] == suffix
  }

  /** Number of decimal digits at the end of `s`. */
  function TrailingDigits(s: string): (k: nat)
    ensures k <= |s|
    ensures AllDigits(s[|s| - k..])
    ensures k < |s| ==> !IsDigit(s[|s| - k - 1])
    decreases |s|
  {
    if |s| > 0 && IsDigit(s[|s| - 1]) then
      var front := s[..|s| - 1];
      var j := TrailingDigits(front);
      var tail := s[|s| - 1 - j..];
      assert tail == front[|front| - j..] + [s[|s| - 1]];
      assert forall i :: 0 <= i < j ==> tail[i] == front[|front| - j..][i];
      assert AllDigits(tail);
      assert j < |front| ==> s[|s| - 1 - j - 1] == front[|front| - j - 1];
      1 + j
    else 0
  }

  /** Appending a run of digits to a string that does not end in a digit
      makes exactly that run the trailing digits. */
  lemma {:induction false} TrailingDigitsOfAppend(p: string, d: string)
    requires AllDigits(d)
    requires |p| == 0 || !IsDigit(p[|p| - 1])
    ensures TrailingDigits(p + d) == |d|
    decreases |d|
  {
    if |d| == 0 {
      assert p + d == p;
    } else {
      assert (p + d)[..|p + d| - 1] == p + d[..|d| - 1];
      TrailingDigitsOfAppend(p, d[..|d| - 1]);
    }
  }
}
