/** Python's decimal rendering `str(n)` of a non-negative integer, `str.zfill`,
    and Python's comparison of `str` values (code point by code point), with
    the facts about them that zero-padded month keys rely on. */
module Strings {

  predicate IsDigit(c: char) { '0' <= c <= '9' }

  predicate IsDigits(s: string) { forall i :: 0 <= i < |s| ==> IsDigit(s[i]) }

  function DigitValue(c: char): int { c as int - '0' as int }

  function DigitChar(d: nat): (c: char)
    requires d <= 9
    ensures IsDigit(c) && DigitValue(c) == d
  {
    (d + '0' as int) as char
  }

  function Pow10(k: nat): (p: nat)
    ensures p >= 1
  {
    if k == 0 then 1 else 10 * Pow10(k - 1)
  }

  /** The number a string of decimal digits denotes, most significant digit first. */
  function Value(s: string): int
  {
    if s == [] then 0 else DigitValue(s[0]) * Pow10(|s| - 1) + Value(s[1..])
  }

  /** Python's `str(n)` for a non-negative integer `n`. */
  function Str(n: nat): (s: string)
    ensures 1 <= |s| && IsDigits(s) && Value(s) == n
    ensures n == 0 ==> s == "0"
    ensures n > 0 ==> s[0] != '0'
    decreases n
  {
    if n < 10 then [DigitChar(n)]
    else
      var prefix := Str(n / 10);
      ValueAppend(prefix, DigitChar(n % 10));
      prefix + [DigitChar(n % 10)]
  }

  function Zeros(k: nat): string { seq(k, _ => '0') }

  /** Python's `s.zfill(width)` for a string without a sign character. */
  function ZFill(s: string, width: nat): string
  {
    if |s| >= width then s else Zeros(width - |s|) + s
  }

  /** `str(n).zfill(width)`: the decimal rendering of `n` padded with leading
      zeros to at least `width` characters. */
  function Padded(n: nat, width: nat): (s: string)
    requires 1 <= width
    ensures n < Pow10(width) ==> |s| == width && IsDigits(s) && Value(s) == n
    ensures n >= Pow10(width - 1) ==> s == Str(n)
  {
    ZFillOfStr(n, width);
    ZFill(Str(n), width)
  }

  lemma ZFillOfStr(n: nat, width: nat)
    requires 1 <= width
    ensures n < Pow10(width) ==>
      var s := ZFill(Str(n), width); |s| == width && IsDigits(s) && Value(s) == n
    ensures n >= Pow10(width - 1) ==> ZFill(Str(n), width) == Str(n)
  {
    var digits := Str(n);
    if n < Pow10(width) {
      StrLength(n, width);
      ValueZeros(width - |digits|, digits);
    }
    if n >= Pow10(width - 1) {
      StrLengthAtLeast(n, width - 1);
    }
  }

  /** Python's `a <= b` on `str`: lexicographic order on code points. */
  predicate LexLe(a: string, b: string)
    decreases |a|
  {
    a == [] || (b != [] && (a[0] < b[0] || (a[0] == b[0] && LexLe(a[1..], b[1..]))))
  }

  // ---------------------------------------------------------------------------
  // Arithmetic helpers

  lemma MulDistrib(a: int, p: int)
    ensures (a + 1) * p == a * p + p
  {
  }

  lemma MulMono(a: int, b: int, p: int)
    requires a <= b && 0 <= p
    ensures a * p <= b * p
  {
    assert b * p - a * p == (b - a) * p;
  }

  lemma MulAssoc10(a: int, p: int)
    ensures a * (10 * p) == 10 * (a * p)
  {
  }

  lemma {:induction false} Pow10Mono(i: nat, j: nat)
    requires i <= j
    ensures Pow10(i) <= Pow10(j)
    decreases j
  {
    if i < j {
      Pow10Mono(i, j - 1);
    }
  }

  // ---------------------------------------------------------------------------
  // Digit strings and their values

  /** A digit string of length k denotes a number below 10^k. */
  lemma {:induction false} ValueBound(s: string)
    requires IsDigits(s)
    ensures 0 <= Value(s) < Pow10(|s|)
    decreases |s|
  {
    if s != [] {
      var p := Pow10(|s| - 1);
      assert IsDigits(s[1..]);
      ValueBound(s[1..]);
      MulMono(DigitValue(s[0]), 9, p);
      MulMono(0, DigitValue(s[0]), p);
    }
  }

  /** Appending a digit shifts the value one decimal place. */
  lemma {:induction false} ValueAppend(s: string, c: char)
    ensures Value(s + [c]) == 10 * Value(s) + DigitValue(c)
    decreases |s|
  {
    if s == [] {
      assert [] + [c] == [c];
    } else {
      var t := s + [c];
      assert t[0] == s[0];
      assert t[1..] == s[1..] + [c];
      ValueAppend(s[1..], c);
      MulAssoc10(DigitValue(s[0]), Pow10(|s| - 1));
    }
  }

  /** Leading zeros do not change the value. */
  lemma {:induction false} ValueZeros(k: nat, s: string)
    ensures Value(Zeros(k) + s) == Value(s)
    ensures IsDigits(s) ==> IsDigits(Zeros(k) + s)
    decreases k
  {
    if k > 0 {
      var t := Zeros(k) + s;
      assert t[0] == '0';
      assert t[1..] == Zeros(k - 1) + s;
      ValueZeros(k - 1, s);
      assert Value(t) == 0 * Pow10(|t| - 1) + Value(t[1..]);
    } else {
      assert Zeros(k) + s == s;
    }
  }

  /** A number below 10^w has at most w decimal digits. */
  lemma {:induction false} StrLength(n: nat, w: nat)
    requires 1 <= w && n < Pow10(w)
    ensures |Str(n)| <= w
    decreases n
  {
    if n >= 10 {
      assert Pow10(1) == 10;
      StrLength(n / 10, w - 1);
    }
  }

  /** A number at least 10^w has more than w decimal digits. */
  lemma StrLengthAtLeast(n: nat, w: nat)
    requires n >= Pow10(w)
    ensures |Str(n)| > w
  {
    var s := Str(n);
    ValueBound(s);
    if |s| <= w {
      Pow10Mono(|s|, w);
    }
  }

  /** On digit strings of one length, Python's string order is numeric order,
      and equal values mean equal strings. */
  lemma {:induction false} DigitsOrder(s: string, t: string)
    requires |s| == |t| && IsDigits(s) && IsDigits(t)
    ensures LexLe(s, t) <==> Value(s) <= Value(t)
    ensures Value(s) == Value(t) ==> s == t
    decreases |s|
  {
    if s != [] {
      var p := Pow10(|s| - 1);
      assert IsDigits(s[1..]) && IsDigits(t[1..]);
      ValueBound(s[1..]);
      ValueBound(t[1..]);
      var a, b := DigitValue(s[0]), DigitValue(t[0]);
      if s[0] < t[0] {
        MulDistrib(a, p);
        MulMono(a + 1, b, p);
        assert Value(s) < Value(t);
      } else if t[0] < s[0] {
        MulDistrib(b, p);
        MulMono(b + 1, a, p);
        assert Value(t) < Value(s);
      } else {
        DigitsOrder(s[1..], t[1..]);
        if Value(s) == Value(t) {
          assert s == [s[0]] + s[1..] && t == [t[0]] + t[1..];
        }
      }
    }
  }

  // ---------------------------------------------------------------------------
  // Python's string order

  /** Comparing `a + u` with `b + v`, where `a` and `b` have one length: the
      prefixes decide unless they are equal. */
  lemma {:induction false} LexLeConcat(a: string, u: string, b: string, v: string)
    requires |a| == |b|
    ensures LexLe(a + u, b + v) <==> if a == b then LexLe(u, v) else LexLe(a, b)
    decreases |a|
  {
    if a == [] {
      assert a + u == u && b + v == v;
    } else {
      assert (a + u)[0] == a[0] && (b + v)[0] == b[0];
      assert (a + u)[1..] == a[1..] + u && (b + v)[1..] == b[1..] + v;
      LexLeConcat(a[1..], u, b[1..], v);
      if a[0] == b[0] {
        assert a == b <==> a[1..] == b[1..] by {
          assert a == [a[0]] + a[1..] && b == [b[0]] + b[1..];
        }
      }
    }
  }

  /** Python's `<=` on `str` is transitive. */
  lemma {:induction false} LexLeTransitive(a: string, b: string, c: string)
    requires LexLe(a, b) && LexLe(b, c)
    ensures LexLe(a, c)
    decreases |a|
  {
    if a != [] && a[0] == b[0] && b[0] == c[0] {
      LexLeTransitive(a[1..], b[1..], c[1..]);
    }
  }

  /** Python's `<=` on `str` is antisymmetric. */
  lemma {:induction false} LexLeAntisymmetric(a: string, b: string)
    requires LexLe(a, b) && LexLe(b, a)
    ensures a == b
    decreases |a|
  {
    if a != [] {
      LexLeAntisymmetric(a[1..], b[1..]);
      assert a == [a[0]] + a[1..] && b == [b[0]] + b[1..];
    }
  }

  /** Two concatenations with equally long first parts are equal exactly when
      both parts are. */
  lemma SplitEqual(a: string, u: string, b: string, v: string)
    requires |a| == |b|
    ensures a + u == b + v <==> a == b && u == v
  {
    if a + u == b + v {
      assert a == (a + u)[..|a|] && b == (b + v)[..|b|];
      assert u == (a + u)[|a|..] && v == (b + v)[|b|..];
    }
  }
}
