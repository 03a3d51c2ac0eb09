/** Decimal digit strings and their numeric reading.
    A magnitude is a string of the characters '0'..'9', most significant digit
    first; `Val` reads it as a natural number. Everything here is specification:
    the algorithms in the other modules are proved against these definitions. */
module Digits {

  predicate IsDigit(c: char) { '0' <= c <= '9' }

  predicate AllDigits(s: string) { forall i :: 0 <= i < |s| ==> IsDigit(s[i]) }

  /** `int(r - '0')` of the source: the numeric code of a character relative to '0'. */
  function Code(c: char): int { c as int - '0' as int }

  /** The character that `fmt.Fprintf(.., "%d", d)` writes for a single digit `d`. */
  function DigitChar(d: nat): (c: char)
    requires d < 10
    ensures IsDigit(c) && Code(c) == d
  {
    ('0' as int + d) as char
  }

  function Pow10(n: nat): (p: nat)
    ensures p >= 1
  {
    if n == 0 then 1 else 10 * Pow10(n - 1)
  }

  /** The decimal reading of a digit string; the empty string reads as 0. */
  function Val(s: string): nat
    requires AllDigits(s)
  {
    if s == [] then 0 else 10 * Val(s[..|s| - 1]) + Code(s[|s| - 1])
  }

  /** A magnitude without superfluous leading zeros ("0" itself is allowed). */
  predicate Canonical(s: string)
  {
    AllDigits(s) && |s| > 0 && (s[0] == '0' ==> |s| == 1)
  }

  /** `strings.Repeat("0", n)`. */
  function Zeros(n: nat): (z: string)
    ensures |z| == n && AllDigits(z)
    ensures forall i :: 0 <= i < n ==> z[i] == '0'
  {
    seq(n, _ => '0')
  }

  function Max(a: nat, b: nat): nat { if a >= b then a else b }

  /** The string with its characters in the opposite order. */
  function Reversed(s: string): (r: string)
    ensures |r| == |s|
  {
    if s == [] then [] else Reversed(s[1..]) + [s[0]]
  }

  /** The canonical decimal numeral of `n`, as `strconv.Itoa` renders a non-negative int. */
  function NatToDecimal(n: nat): string
  {
    if n < 10 then [DigitChar(n)] else NatToDecimal(n / 10) + [DigitChar(n % 10)]
  }

  /** The last `w` decimal digits of `n`, zero-padded on the left to exactly `w` characters. */
  function DigitsOf(n: nat, w: nat): string
  {
    if w == 0 then [] else DigitsOf(n / 10, w - 1) + [DigitChar(n % 10)]
  }

  /** The sign of an integer, as the comparators of the source return it. */
  function Sign(z: int): int { if z > 0 then 1 else if z < 0 then -1 else 0 }

  // ---------------------------------------------------------------------------
  // Properties of the decimal reading

  lemma AllDigitsSlice(s: string, i: nat, j: nat)
    requires AllDigits(s) && i <= j <= |s|
    ensures AllDigits(s[i..j])
  {
  }

  /** Reading a concatenation: the left part is shifted by the width of the right part. */
  lemma {:induction false} ValAppend(a: string, b: string)
    requires AllDigits(a) && AllDigits(b)
    ensures AllDigits(a + b)
    ensures Val(a + b) == Val(a) * Pow10(|b|) + Val(b)
  {
    if b == [] {
      assert a + b == a;
    } else {
      var b' := b[..|b| - 1];
      var c := b[|b| - 1];
      assert (a + b)[..|a + b| - 1] == a + b';
      assert (a + b)[|a + b| - 1] == c;
      ValAppend(a, b');
      assert Val(a + b) == 10 * Val(a + b') + Code(c);
      assert Val(b) == 10 * Val(b') + Code(c);
      assert Pow10(|b|) == 10 * Pow10(|b'|);
      AppendArith(Val(a), Pow10(|b'|), Pow10(|b|), Val(b'), Code(c), Val(a + b'), Val(b), Val(a + b));
    }
  }

  /** The arithmetic step of `ValAppend`, on plain numbers. */
  lemma AppendArith(va: nat, p: nat, pb: nat, vb0: nat, d: nat, s: nat, vb: nat, r: nat)
    requires s == va * p + vb0 && pb == 10 * p && vb == 10 * vb0 + d && r == 10 * s + d
    ensures r == va * pb + vb
  {
    assert va * pb == 10 * (va * p);
  }

  /** Reading a string extended by one last digit. */
  lemma ValSnoc(s: string, c: char)
    requires AllDigits(s) && IsDigit(c)
    ensures AllDigits(s + [c]) && Val(s + [c]) == 10 * Val(s) + Code(c)
  {
    assert (s + [c])[..|s|] == s;
  }

  /** Reading a string from its first digit. */
  lemma ValCons(c: char, s: string)
    requires IsDigit(c) && AllDigits(s)
    ensures AllDigits([c] + s)
    ensures Val([c] + s) == Code(c) * Pow10(|s|) + Val(s)
  {
    assert [c][..0] == [];
    assert Val([c]) == Code(c);
    ValAppend([c], s);
  }

  lemma {:induction false} ValBound(s: string)
    requires AllDigits(s)
    ensures Val(s) < Pow10(|s|)
  {
    if s != [] {
      ValBound(s[..|s| - 1]);
    }
  }

  lemma Pow10Add(a: nat, b: nat)
    ensures Pow10(a + b) == Pow10(a) * Pow10(b)
  {
    if b > 0 {
      Pow10Add(a, b - 1);
    }
  }

  lemma Pow10Grows(a: nat, b: nat)
    ensures a < b ==> Pow10(a) <= Pow10(b - 1)
  {
    if a < b {
      Pow10Monotone(a, b - 1);
    }
  }

  lemma Pow10Monotone(a: nat, b: nat)
    requires a <= b
    ensures Pow10(a) <= Pow10(b)
  {
    if a < b {
      Pow10Monotone(a, b - 1);
    }
  }

  /** The leading digit is non-zero exactly when the value reaches the lowest number of that width. */
  lemma LeadingDigit(s: string)
    requires AllDigits(s) && |s| > 0
    ensures s[0] != '0' <==> Val(s) >= Pow10(|s| - 1)
  {
    var t := s[1..];
    assert s == [s[0]] + t;
    ValCons(s[0], t);
    ValBound(t);
    if s[0] != '0' {
      assert Code(s[0]) >= 1;
    }
  }

  lemma {:induction false} ValZeros(n: nat, s: string)
    requires AllDigits(s)
    ensures AllDigits(Zeros(n) + s) && Val(Zeros(n) + s) == Val(s)
  {
    if n > 0 {
      assert Zeros(n) == ['0'] + Zeros(n - 1);
      assert Zeros(n) + s == ['0'] + (Zeros(n - 1) + s);
      ValZeros(n - 1, s);
      ValCons('0', Zeros(n - 1) + s);
    } else {
      assert Zeros(n) + s == s;
    }
  }

  lemma {:induction false} ValAllZeros(s: string)
    requires AllDigits(s)
    ensures Val(s) == 0 <==> forall i :: 0 <= i < |s| ==> s[i] == '0'
  {
    if s != [] {
      var p := s[..|s| - 1];
      ValAllZeros(p);
      assert forall i :: 0 <= i < |p| ==> p[i] == s[i];
      assert s == p + [s[|s| - 1]];
      if Val(s) == 0 {
        assert Val(p) == 0 && s[|s| - 1] == '0';
      }
    }
  }

  /** Two digit strings of the same width with the same value are the same string. */
  lemma {:induction false} ValInjective(s: string, t: string)
    requires AllDigits(s) && AllDigits(t) && |s| == |t| && Val(s) == Val(t)
    ensures s == t
  {
    if s != [] {
      var n := |s|;
      var ps, pt := s[..n - 1], t[..n - 1];
      assert Val(s) == 10 * Val(ps) + Code(s[n - 1]);
      assert Val(t) == 10 * Val(pt) + Code(t[n - 1]);
      LastDigitUnique(Val(ps), Code(s[n - 1]), Val(pt), Code(t[n - 1]));
      ValInjective(ps, pt);
      assert s == ps + [s[n - 1]] && t == pt + [t[n - 1]];
    }
  }

  /** A number has one last decimal digit and one prefix value. */
  lemma LastDigitUnique(p: nat, d: int, q: nat, e: int)
    requires 0 <= d < 10 && 0 <= e < 10 && 10 * p + d == 10 * q + e
    ensures p == q && d == e
  {
  }

  /** Two canonical magnitudes with the same value are the same string. */
  lemma CanonicalInjective(s: string, t: string)
    requires Canonical(s) && Canonical(t) && Val(s) == Val(t)
    ensures s == t
  {
    LeadingDigit(s);
    LeadingDigit(t);
    ValBound(s);
    ValBound(t);
    Pow10Grows(|s|, |t|);
    Pow10Grows(|t|, |s|);
    ValInjective(s, t);
  }

  // ---------------------------------------------------------------------------
  // The reference numerals

  lemma {:induction false} NatToDecimalCorrect(n: nat)
    ensures Canonical(NatToDecimal(n))
    ensures Val(NatToDecimal(n)) == n
  {
    if n >= 10 {
      var d := NatToDecimal(n / 10);
      NatToDecimalCorrect(n / 10);
      ValAppend(d, [DigitChar(n % 10)]);
      assert [DigitChar(n % 10)][..0] == [];
      assert Val([DigitChar(n % 10)]) == n % 10;
    } else {
      assert [DigitChar(n)][..0] == [];
    }
  }

  /** Rendering the value of a canonical magnitude gives it back. */
  lemma NatToDecimalOfVal(s: string)
    requires Canonical(s)
    ensures NatToDecimal(Val(s)) == s
  {
    NatToDecimalCorrect(Val(s));
    CanonicalInjective(NatToDecimal(Val(s)), s);
  }

  lemma {:induction false} DigitsOfCorrect(n: nat, w: nat)
    ensures |DigitsOf(n, w)| == w && AllDigits(DigitsOf(n, w))
    ensures Val(DigitsOf(n, w)) == n % Pow10(w)
  {
    if w > 0 {
      DigitsOfCorrect(n / 10, w - 1);
      var d := DigitsOf(n, w);
      assert d[..w - 1] == DigitsOf(n / 10, w - 1);
      DivModShift(n, Pow10(w - 1));
    }
  }

  /** A number below `10^w` is spelt by `DigitsOf` with exactly `w` digits. */
  lemma DigitsOfSmall(n: nat, w: nat)
    requires n < Pow10(w)
    ensures |DigitsOf(n, w)| == w && AllDigits(DigitsOf(n, w)) && Val(DigitsOf(n, w)) == n
  {
    DigitsOfCorrect(n, w);
    DivModUnique(n, Pow10(w), 0, n);
  }

  /** Peeling the last decimal digit off a remainder modulo `10 * m`. */
  lemma DivModShift(n: nat, m: nat)
    requires m >= 1
    ensures 10 * ((n / 10) % m) + n % 10 == n % (10 * m)
  {
    var q := (n / 10) / m;
    var r := (n / 10) % m;
    assert n / 10 == q * m + r;
    assert n == 10 * (n / 10) + n % 10;
    assert n == q * (10 * m) + (10 * r + n % 10);
    DivModUnique(n, 10 * m, q, 10 * r + n % 10);
  }

  lemma DivModUnique(n: int, d: int, q: int, r: int)
    requires d > 0 && 0 <= r < d && n == q * d + r
    ensures n / d == q && n % d == r
  {
    var q' := n / d;
    var r' := n % d;
    assert q' * d + r' == q * d + r;
    assert (q' - q) * d == r - r' by {
      assert (q' - q) * d == q' * d - q * d;
    }
    assert (q - q') * d == r' - r by {
      assert (q - q') * d == q * d - q' * d;
    }
    if q' > q {
      MulAtLeast(q' - q, d);
    } else if q' < q {
      MulAtLeast(q - q', d);
    }
  }

  lemma MulAtLeast(k: int, d: int)
    requires k >= 1 && d > 0
    ensures k * d >= d
  {
    assert k * d == (k - 1) * d + d;
  }

  /** `a == (a / m) * m + a % m`, with the quotient positive exactly when `a` reaches `m`. */
  lemma DivModIdentity(a: nat, m: nat)
    requires m >= 1
    ensures a == (a / m) * m + a % m && 0 <= a % m < m
    ensures a / m >= 0 && (a / m > 0 <==> a >= m)
  {
    if a >= m {
      DivModUnique(a - m, m, (a - m) / m, (a - m) % m);
      assert a == ((a - m) / m + 1) * m + (a - m) % m;
      DivModUnique(a, m, (a - m) / m + 1, (a - m) % m);
    } else {
      DivModUnique(a, m, 0, a);
    }
  }

  lemma DivBelow(a: nat, m: nat, k: nat)
    requires m >= 1 && a < k * m
    ensures a / m < k
  {
    DivModIdentity(a, m);
    MulMonotone(k, a / m, m);
  }

  lemma MulMonotone(a: nat, b: nat, m: nat)
    ensures a <= b ==> a * m <= b * m
  {
    if a <= b {
      assert b * m == a * m + (b - a) * m;
    }
  }

  /** Natural-number quotient; `QuotientBounds` states its bounds. */
  function Quotient(a: nat, m: nat): nat
    requires m >= 1
  {
    a / m
  }

  /** The quotient is the largest multiple of `m` not above `a`. */
  lemma QuotientBounds(a: nat, m: nat)
    requires m >= 1
    ensures Quotient(a, m) * m <= a < (Quotient(a, m) + 1) * m
  {
    DivModIdentity(a, m);
  }

  /** A digit string is the `|s|`-wide rendering of its own value. */
  lemma DigitsOfVal(s: string)
    requires AllDigits(s)
    ensures DigitsOf(Val(s), |s|) == s
  {
    ValBound(s);
    DigitsOfSmall(Val(s), |s|);
    ValInjective(DigitsOf(Val(s), |s|), s);
  }

  // ---------------------------------------------------------------------------
  // Reversal

  lemma {:induction false} ReversedAt(s: string, k: nat)
    requires k < |s|
    ensures |Reversed(s)| == |s| && Reversed(s)[k] == s[|s| - 1 - k]
  {
    ReversedLength(s);
    if k < |s| - 1 {
      ReversedAt(s[1..], k);
    }
  }

  lemma {:induction false} ReversedLength(s: string)
    ensures |Reversed(s)| == |s|
  {
    if s != [] {
      ReversedLength(s[1..]);
    }
  }

  /** Reversal is an involution that keeps the length. */
  lemma ReversedInvolution(s: string)
    ensures |Reversed(s)| == |s|
    ensures Reversed(Reversed(s)) == s
  {
    ReversedLength(s);
    ReversedLength(Reversed(s));
    forall k | 0 <= k < |s|
      ensures Reversed(Reversed(s))[k] == s[k]
    {
      ReversedAt(Reversed(s), k);
      ReversedAt(s, |s| - 1 - k);
    }
  }

  lemma ReversedSnoc(s: string, c: char)
    ensures Reversed(s + [c]) == [c] + Reversed(s)
  {
    ReversedLength(s);
    ReversedLength(s + [c]);
    forall k | 0 <= k < |s| + 1
      ensures Reversed(s + [c])[k] == ([c] + Reversed(s))[k]
    {
      ReversedAt(s + [c], k);
      if k > 0 {
        ReversedAt(s, k - 1);
      }
    }
  }

  lemma ReversedAllDigits(s: string)
    requires AllDigits(s)
    ensures AllDigits(Reversed(s))
  {
    ReversedLength(s);
    forall k | 0 <= k < |s|
      ensures IsDigit(Reversed(s)[k])
    {
      ReversedAt(s, k);
    }
  }

  // ---------------------------------------------------------------------------
  // Comparison of magnitudes

  /** Left-to-right comparison of two equally long strings by their first differing digit. */
  function LexCompare(b: string, x: string): int
    requires |b| == |x|
  {
    if b == [] then 0
    else if Code(b[0]) > Code(x[0]) then 1
    else if Code(b[0]) < Code(x[0]) then -1
    else LexCompare(b[1..], x[1..])
  }

  /** The magnitude order of `compareValues`: length first, then the first differing digit. */
  function CompareDigits(b: string, x: string): int
  {
    if |b| > |x| then 1
    else if |b| < |x| then -1
    else LexCompare(b, x)
  }

  lemma {:induction false} LexCompareProperties(b: string, x: string)
    requires |b| == |x|
    ensures LexCompare(b, x) in {-1, 0, 1}
    ensures LexCompare(b, x) == -LexCompare(x, b)
    ensures LexCompare(b, x) == 0 <==> b == x
  {
    if b != [] {
      LexCompareProperties(b[1..], x[1..]);
      if b[0] == x[0] && b[1..] == x[1..] {
        assert b == [b[0]] + b[1..] && x == [x[0]] + x[1..];
      }
    }
  }

  /** On equally long digit strings, the lexicographic order is the numeric order. */
  lemma {:induction false} LexCompareVal(b: string, x: string)
    requires AllDigits(b) && AllDigits(x) && |b| == |x|
    ensures LexCompare(b, x) == Sign(Val(b) - Val(x))
  {
    if b != [] {
      var n := |b| - 1;
      assert b == [b[0]] + b[1..] && x == [x[0]] + x[1..];
      ValCons(b[0], b[1..]);
      ValCons(x[0], x[1..]);
      ValBound(b[1..]);
      ValBound(x[1..]);
      if Code(b[0]) > Code(x[0]) {
        LeadingDominates(Code(b[0]), Code(x[0]), Pow10(n), Val(b[1..]), Val(x[1..]));
      } else if Code(b[0]) < Code(x[0]) {
        LeadingDominates(Code(x[0]), Code(b[0]), Pow10(n), Val(x[1..]), Val(b[1..]));
      } else {
        LexCompareVal(b[1..], x[1..]);
      }
    }
  }

  lemma LeadingDominates(d1: int, d2: int, p: int, a: int, b: int)
    requires d1 > d2 >= 0 && 0 <= a < p && 0 <= b < p
    ensures d1 * p + a > d2 * p + b
  {
    MulAtLeast(d1 - d2, p);
    assert d1 * p - d2 * p == (d1 - d2) * p;
  }

  /** `compareValues` answers -1, 0 or 1, is antisymmetric, and is 0 exactly on equal strings. */
  lemma CompareDigitsProperties(b: string, x: string)
    ensures CompareDigits(b, x) in {-1, 0, 1}
    ensures CompareDigits(b, x) == -CompareDigits(x, b)
    ensures CompareDigits(b, x) == 0 <==> b == x
  {
    if |b| == |x| {
      LexCompareProperties(b, x);
    }
  }

  /** On leading-zero-free magnitudes, `compareValues` is the sign of the difference of the values. */
  lemma CompareDigitsVal(b: string, x: string)
    requires Canonical(b) && Canonical(x)
    ensures CompareDigits(b, x) == Sign(Val(b) - Val(x))
  {
    LeadingDigit(b);
    LeadingDigit(x);
    ValBound(b);
    ValBound(x);
    if |b| > |x| {
      Pow10Monotone(|x|, |b| - 1);
      assert b[0] != '0';
    } else if |b| < |x| {
      Pow10Monotone(|b|, |x| - 1);
      assert x[0] != '0';
    } else {
      LexCompareVal(b, x);
    }
  }

  /** For any digit strings, a longer-or-lexicographically-larger `b` has at least the value of `x`
      once `b` has no leading zero. */
  lemma CompareDigitsLowerBound(v: string, x: string)
    requires AllDigits(v) && AllDigits(x) && |v| > 0 && v[0] != '0'
    requires CompareDigits(v, x) >= 0
    ensures Val(v) >= Val(x)
    ensures |x| > 0 && x[0] == '0' ==> Val(v) > Val(x)
  {
    LeadingDigit(v);
    ValBound(x);
    if |v| > |x| {
      Pow10Monotone(|x|, |v| - 1);
    } else {
      LexCompareVal(v, x);
      if |x| > 0 && x[0] == '0' {
        LeadingDigit(x);
      }
    }
  }
}
