/** Character and string helpers shared by the changelog pipeline:
    prefix tests, the ASCII case folding that the case-insensitive
    patterns use, and the decimal rendering of numbers in templates. */
module Text {

  /** `s.startsWith(prefix)`. */
  predicate StartsWith(s: string, prefix: string) {
    |prefix| <= |s| && s[..|prefix|] == prefix
  }

  /** `s.endsWith(suffix)`. */
  predicate EndsWith(s: string, suffix: string) {
    |suffix| <= |s| && s[|s| - |suffix|..] == suffix
  }

  lemma EmptyAppend(s: string)
    ensures "" + s == s
  {
  }

  lemma StartsWithAppended(a: string, b: string)
    ensures StartsWith(a + b, a)
  {
  }

  lemma StartsWithTransitive(a: string, b: string, c: string)
    requires StartsWith(a, b) && StartsWith(b, c)
    ensures StartsWith(a, c)
  {
    assert a[..|c|] == b[..|c|];
  }

  /** If `x` starts with `before + line`, then in `h + x` the text `line`
      stands right after `h` and `before`. */
  lemma StartsWithAfter(h: string, x: string, before: string, line: string)
    requires StartsWith(x, before + line)
    ensures |h| + |before| <= |h + x| && StartsWith((h + x)[|h| + |before|..], line)
  {
    assert (h + x)[|h| + |before|..][..|line|] == (before + line)[|before|..];
  }

  lemma EndsWithAppended(a: string, b: string)
    ensures |b| <= |a + b| && (a + b)[|a + b| - |b|..] == b
  {
  }

  lemma AppendAssociative(a: string, b: string, c: string)
    ensures (a + b) + c == a + (b + c)
  {
  }

  predicate IsAsciiUpper(c: char) { 'A' <= c <= 'Z' }

  predicate IsAsciiLetter(c: char) { 'A' <= c <= 'Z' || 'a' <= c <= 'z' }

  /** Case folding of one character. Only ASCII letters change: a
      case-insensitive pattern written in ASCII never matches a non-ASCII
      character, and no other character lower-cases into one of the
      letters of "merge". */
  function Fold(c: char): (d: char)
    ensures !IsAsciiUpper(d)
    ensures IsAsciiLetter(c) <==> IsAsciiLetter(d)
    ensures !IsAsciiLetter(c) ==> d == c
  {
    if IsAsciiUpper(c) then (c as int + 32) as char else c
  }

  /** `s.toLowerCase()`, on the characters the pipeline compares. */
  function Lower(s: string): (r: string)
    ensures |r| == |s|
    ensures forall i :: 0 <= i < |s| ==> r[i] == Fold(s[i])
  {
    seq(|s|, i requires 0 <= i < |s| => Fold(s[i]))
  }

  /** `s` starts with `prefix`, ignoring the case of ASCII letters. */
  predicate StartsWithFolded(s: string, prefix: string) {
    |prefix| <= |s| && forall i :: 0 <= i < |prefix| ==> Fold(s[i]) == Fold(prefix[i])
  }

  /** Two characters fold alike exactly when they are equal or are the
      upper- and lower-case forms of one ASCII letter. */
  lemma FoldAlike(a: char, b: char)
    ensures Fold(a) == Fold(b) <==>
      a == b || (IsAsciiLetter(a) && IsAsciiLetter(b) && (a as int - b as int == 32 || b as int - a as int == 32))
  {
  }

  /** Lower-casing and then testing a lower-case prefix is the same as a
      case-insensitive prefix test. */
  lemma LowerStartsWith(s: string, prefix: string)
    requires Lower(prefix) == prefix
    ensures StartsWith(Lower(s), prefix) <==> StartsWithFolded(s, prefix)
  {
    if StartsWithFolded(s, prefix) {
      assert Lower(s)[..|prefix|] == prefix by {
        forall i | 0 <= i < |prefix| ensures Lower(s)[i] == prefix[i] {
          assert Lower(prefix)[i] == Fold(prefix[i]);
        }
      }
    }
    if StartsWith(Lower(s), prefix) {
      forall i | 0 <= i < |prefix| ensures Fold(s[i]) == Fold(prefix[i]) {
        assert Lower(s)[..|prefix|][i] == prefix[i];
        assert Lower(prefix)[i] == Fold(prefix[i]);
      }
    }
  }

  predicate IsDigit(c: char) { '0' <= c <= '9' }

  predicate AllDigits(s: string) { forall i :: 0 <= i < |s| ==> IsDigit(s[i]) }

  function DigitChar(d: nat): (c: char)
    requires d < 10
    ensures IsDigit(c) && c as int - '0' as int == d
  {
    ('0' as int + d) as char
  }

  /** Decimal rendering of a non-negative number, as a template literal
      `${n}` prints it. */
  function NatToString(n: nat): (s: string)
    ensures |s| > 0 && AllDigits(s)
    ensures s[0] == '0' ==> n == 0
    decreases n
  {
    if n < 10 then [DigitChar(n)] else NatToString(n / 10) + [DigitChar(n % 10)]
  }

  /** Decimal rendering of any integer, with a leading minus sign when
      negative. */
  function IntToString(i: int): (s: string)
    ensures |s| > 0
    ensures i >= 0 <==> AllDigits(s)
    ensures i >= 0 ==> s == NatToString(i)
    ensures i < 0 ==> s == "-" + NatToString(-i)
  {
    if i < 0 then
      var s := "-" + NatToString(-i);
      assert !IsDigit(s[0]);
      s
    else NatToString(i)
  }

  /** The number a string of decimal digits denotes. */
  function DecimalValue(s: string): nat
    requires AllDigits(s)
  {
    if s == [] then 0 else DecimalValue(s[..|s| - 1]) * 10 + (s[|s| - 1] as int - '0' as int)
  }

  /** Reading back the rendering of `n` gives `n`: the number printed in a
      template is the number that was meant. */
  lemma {:induction false} DecimalRoundTrip(n: nat)
    ensures DecimalValue(NatToString(n)) == n
    decreases n
  {
    if n >= 10 {
      var s := NatToString(n);
      assert s[..|s| - 1] == NatToString(n / 10);
      DecimalRoundTrip(n / 10);
    }
  }

  /** Different integers are printed differently. */
  lemma IntToStringInjective(i: int, j: int)
    requires IntToString(i) == IntToString(j)
    ensures i == j
  {
    if i >= 0 && j >= 0 {
      DecimalRoundTrip(i);
      DecimalRoundTrip(j);
    } else if i < 0 && j < 0 {
      assert NatToString(-i) == IntToString(i)[1..];
      assert NatToString(-j) == IntToString(j)[1..];
      DecimalRoundTrip(-i);
      DecimalRoundTrip(-j);
    }
  }
}
