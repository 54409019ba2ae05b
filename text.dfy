/**
 * Strings as the source compares and prints them: the code-unit
 * lexicographic order that sorts the reminder keys, and zero-padded decimal
 * numerals with their parser.
 */
module Text {

  /** Strict lexicographic order on code units; a proper prefix comes first. */
  predicate LexLess(a: string, b: string)
  {
    |b| > 0 && (|a| == 0 || a[0] < b[0] || (a[0] == b[0] && LexLess(a[1..], b[1..])))
  }

  lemma {:induction false} LexIrreflexive(a: string)
    ensures !LexLess(a, a)
  {
    if |a| > 0 {
      LexIrreflexive(a[1..]);
    }
  }

  lemma {:induction false} LexTransitive(a: string, b: string, c: string)
    requires LexLess(a, b) && LexLess(b, c)
    ensures LexLess(a, c)
  {
    if |a| > 0 && a[0] == b[0] && b[0] == c[0] {
      LexTransitive(a[1..], b[1..], c[1..]);
    }
  }

  /** Any two strings are equal or ordered one way or the other. */
  lemma {:induction false} LexTotal(a: string, b: string)
    ensures a == b || LexLess(a, b) || LexLess(b, a)
  {
    if |a| > 0 && |b| > 0 && a[0] == b[0] {
      LexTotal(a[1..], b[1..]);
      if a[1..] == b[1..] {
        assert a == [a[0]] + a[1..] && b == [b[0]] + b[1..];
      }
    }
  }

  lemma LexAsymmetric(a: string, b: string)
    requires LexLess(a, b)
    ensures !LexLess(b, a)
  {
    if LexLess(b, a) {
      LexTransitive(a, b, a);
      LexIrreflexive(a);
    }
  }

  /** Comparing two concatenations whose first parts have equal length
      compares the first parts, and the second parts only on a tie. */
  lemma {:induction false} LexAppend(a: string, b: string, c: string, d: string)
    requires |a| == |b|
    ensures LexLess(a + c, b + d) <==> LexLess(a, b) || (a == b && LexLess(c, d))
  {
    if |a| == 0 {
      assert a + c == c && b + d == d;
      LexIrreflexive(a);
    } else {
      LexAppend(a[1..], b[1..], c, d);
      assert (a + c)[1..] == a[1..] + c;
      assert (b + d)[1..] == b[1..] + d;
      assert a == b <==> a[0] == b[0] && a[1..] == b[1..] by {
        if a[0] == b[0] && a[1..] == b[1..] {
          assert a == [a[0]] + a[1..] && b == [b[0]] + b[1..];
        }
      }
    }
  }

  predicate IsDigit(c: char)
  {
    '0' <= c <= '9'
  }

  predicate AllDigits(s: string)
  {
    forall i :: 0 <= i < |s| ==> IsDigit(s[i])
  }

  function DigitChar(v: int): (c: char)
    requires 0 <= v < 10
    ensures IsDigit(c) && DigitValue(c) == v
  {
    ('0' as int + v) as char
  }

  function DigitValue(c: char): int
    requires IsDigit(c)
  {
    c as int - '0' as int
  }

  function Pow10(w: nat): nat
  {
    if w == 0 then 1 else 10 * Pow10(w - 1)
  }

  /** The value of a string of decimal digits, most significant first. */
  function ParseNat(s: string): nat
    requires AllDigits(s)
  {
    if s == [] then 0 else 10 * ParseNat(s[..|s| - 1]) + DigitValue(s[|s| - 1])
  }

  /**
   * The decimal numeral of `n`, left-padded with zeros to at least `w`
   * digits (JavaScript's `String(n).padStart(w, '0')`, which is how
   * `toISOString` renders each field). It reads back as `n`, and it is
   * exactly `w` digits long when `n` fits.
   */
  function Numeral(n: nat, w: nat): (s: string)
    ensures AllDigits(s) && ParseNat(s) == n
    ensures |s| >= 1 && |s| >= w
    ensures 1 <= w && n < Pow10(w) ==> |s| == w
    decreases n + w
  {
    var prefix := if n >= 10 || w > 1 then Numeral(n / 10, if w > 0 then w - 1 else 0) else [];
    assert (prefix + [DigitChar(n % 10)])[..|prefix|] == prefix;
    prefix + [DigitChar(n % 10)]
  }

  /** Numerals of the same width compare as the numbers they denote. */
  lemma {:induction false} NumeralOrder(n: nat, m: nat, w: nat)
    requires 1 <= w && n < Pow10(w) && m < Pow10(w)
    ensures LexLess(Numeral(n, w), Numeral(m, w)) <==> n < m
  {
    if w == 1 {
      assert Numeral(n, w) == [DigitChar(n)] && Numeral(m, w) == [DigitChar(m)];
      assert [DigitChar(n)][1..] == [] == [DigitChar(m)][1..];
    } else {
      var a, b := Numeral(n / 10, w - 1), Numeral(m / 10, w - 1);
      assert Numeral(n, w) == a + [DigitChar(n % 10)];
      assert Numeral(m, w) == b + [DigitChar(m % 10)];
      NumeralOrder(n / 10, m / 10, w - 1);
      LexAppend(a, b, [DigitChar(n % 10)], [DigitChar(m % 10)]);
      assert a == b <==> n / 10 == m / 10;
      assert [DigitChar(n % 10)][1..] == [] == [DigitChar(m % 10)][1..];
    }
  }
}
