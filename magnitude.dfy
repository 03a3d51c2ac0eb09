/** The string algorithms that both revisions of the engine share unchanged:
    `checkDigits`, `equalLengths`, `reverse`, `multiplyByIntHelper`
    and the left-to-right remainder loop of `DivideByInt`. */
module Magnitude {
  import opened Digits

  /** `checkDigits`: scan the string and stop at the first character outside '0'..'9'. */
  method CheckDigits(s: string) returns (ok: bool)
    ensures ok <==> AllDigits(s)
  {
    var i := 0;
    while i < |s|
      invariant 0 <= i <= |s|
      invariant forall k :: 0 <= k < i ==> IsDigit(s[k])
    {
      if s[i] < '0' || s[i] > '9' {
        return false;
      }
      i := i + 1;
    }
    return true;
  }

  /** `equalLengths`: left-pad the shorter string with '0' up to the longer length. */
  function EqualLengths(x: string, y: string): (r: (string, string))
    ensures |r.0| == |r.1| == Max(|x|, |y|)
    ensures r.0 == Zeros(|r.0| - |x|) + x && r.1 == Zeros(|r.1| - |y|) + y
  {
    if |x| == |y| then (x, y)
    else if |x| > |y| then (x, Zeros(|x| - |y|) + y)
    else (Zeros(|y| - |x|) + x, y)
  }

  /** The padding changes neither reading. */
  lemma EqualLengthsVal(x: string, y: string)
    requires AllDigits(x) && AllDigits(y)
    ensures AllDigits(EqualLengths(x, y).0) && AllDigits(EqualLengths(x, y).1)
    ensures Val(EqualLengths(x, y).0) == Val(x) && Val(EqualLengths(x, y).1) == Val(y)
  {
    var r := EqualLengths(x, y);
    ValZeros(|r.0| - |x|, x);
    ValZeros(|r.1| - |y|, y);
  }

  /** `reverse`: copy into a buffer and swap the outermost unswapped pair until the ends meet. */
  method Reverse(s: string) returns (r: string)
    ensures r == Reversed(s)
  {
    var n := |s|;
    var runes := new char[n](k requires 0 <= k < n => s[k]);
    var i, j := 0, n - 1;
    while i < j
      invariant 0 <= i && j == n - 1 - i && i <= n - i
      invariant forall k :: 0 <= k < i ==> runes[k] == s[n - 1 - k] && runes[n - 1 - k] == s[k]
      invariant forall k :: i <= k < n - i ==> runes[k] == s[k]
    {
      runes[i], runes[j] := runes[j], runes[i];
      i, j := i + 1, j - 1;
    }
    r := runes[..];
    ReversedLength(s);
    forall k | 0 <= k < n
      ensures r[k] == Reversed(s)[k]
    {
      ReversedAt(s, k);
    }
  }

  /** The text `multiplyByIntHelper` puts in front for a leftover carry: nothing for 0. */
  function CarryText(c: nat): string
  {
    if c == 0 then "" else NatToDecimal(c)
  }

  /** `multiplyByIntHelper(x, number, powerOf10, overflow, sb)`: multiply `number` by `x` from its
      last digit on, appending each product digit to the builder `sb` (a value here: the builder's
      contents so far), and finally emit the carry, the reversed builder and `powerOf10` zeros.
      What it computes is stated by `MultiplyByIntHelperCorrect` and `PartialProduct`. */
  function MultiplyByIntHelper(x: nat, number: string, powerOf10: nat, overflow: nat, sb: string): string
    requires AllDigits(number)
    decreases |number|
  {
    if |number| == 0 then
      CarryText(overflow) + Reversed(sb) + Zeros(powerOf10)
    else
      var product := Code(number[|number| - 1]) * x + overflow;
      assert AllDigits(number[..|number| - 1]);
      MultiplyByIntHelper(x, number[..|number| - 1], powerOf10, product / 10, sb + [DigitChar(product % 10)])
  }

  /** What the helper computes: when `x * Val(number) + overflow` is `q * 10^n + r` with `r < 10^n`
      (`n` the length of `number`), it emits the carry `q`, then `r` over `n` digits, then the
      reversed builder, then the shift zeros. */
  lemma {:induction false} MultiplyByIntHelperCorrect(x: nat, number: string, p: nat, overflow: nat, sb: string, q: nat, r: nat)
    requires AllDigits(number)
    requires x * Val(number) + overflow == q * Pow10(|number|) + r && r < Pow10(|number|)
    ensures MultiplyByIntHelper(x, number, p, overflow, sb)
            == CarryText(q) + DigitsOf(r, |number|) + Reversed(sb) + Zeros(p)
  {
    if |number| == 0 {
      HelperEmpty(x, number, p, overflow, sb, q, r);
    } else {
      var n := |number|;
      var front := number[..n - 1];
      var cd := Code(number[n - 1]);
      var product := cd * x + overflow;
      HelperUnfold(x, number, p, overflow, sb);
      HelperRecurse(x, Val(number), Val(front), cd, overflow, q, r, Pow10(n - 1));
      var c := DigitChar(product % 10);
      var rest := sb + [c];
      MultiplyByIntHelperCorrect(x, front, p, product / 10, rest, q, r / 10);
      EmittedStep(q, r, n, sb, p, c);
      calc {
        MultiplyByIntHelper(x, number, p, overflow, sb);
        MultiplyByIntHelper(x, front, p, product / 10, rest);
        CarryText(q) + DigitsOf(r / 10, n - 1) + Reversed(rest) + Zeros(p);
        CarryText(q) + DigitsOf(r, n) + Reversed(sb) + Zeros(p);
      }
    }
  }

  /** The helper on an empty number emits the carry, the reversed builder and the zeros. */
  lemma HelperEmpty(x: nat, number: string, p: nat, overflow: nat, sb: string, q: nat, r: nat)
    requires number == [] && overflow == q * Pow10(0) + r && r < Pow10(0)
    ensures MultiplyByIntHelper(x, number, p, overflow, sb)
            == CarryText(q) + DigitsOf(r, |number|) + Reversed(sb) + Zeros(p)
  {
    assert r == 0 && q == overflow;
    assert CarryText(q) + DigitsOf(r, 0) == CarryText(q);
  }

  /** One call of the helper on a non-empty number: the last digit is multiplied and written. */
  lemma HelperUnfold(x: nat, number: string, p: nat, overflow: nat, sb: string)
    requires AllDigits(number) && |number| > 0
    ensures AllDigits(number[..|number| - 1])
    ensures Val(number) == 10 * Val(number[..|number| - 1]) + Code(number[|number| - 1])
    ensures 0 <= Code(number[|number| - 1]) <= 9 && Code(number[|number| - 1]) * x + overflow >= 0
    ensures var product := Code(number[|number| - 1]) * x + overflow;
            MultiplyByIntHelper(x, number, p, overflow, sb)
            == MultiplyByIntHelper(x, number[..|number| - 1], p, product / 10, sb + [DigitChar(product % 10)])
  {
  }

  /** The carry and low digits of one step of the helper: the shorter product splits at `m` with
      the same carry and the high digits of `r`, and the digit written is the last digit of `r`. */
  lemma HelperRecurse(x: nat, v: nat, w: nat, cd: nat, overflow: nat, q: nat, r: nat, m: nat)
    requires v == 10 * w + cd && x * v + overflow == q * (10 * m) + r && r < 10 * m
    ensures x * w + (cd * x + overflow) / 10 == q * m + r / 10 && r / 10 < m
    ensures (cd * x + overflow) % 10 == r % 10
  {
    HelperStep(x, w, cd, overflow);
    MulTen(q, m);
    StepArith(x * v + overflow, x * w + (cd * x + overflow) / 10, (cd * x + overflow) % 10, q * m, r, m);
  }

  lemma MulTen(q: nat, m: nat)
    ensures q * (10 * m) == 10 * (q * m)
  {
  }

  /** The numbers behind one step of the helper: when `T` is both `10 * t' + d` and
      `10 * qm + r`, the shorter product `t'` is `qm` plus the high digits of `r`, and `d` is the
      last digit of `r`. */
  lemma StepArith(t: nat, t': nat, d: nat, qm: nat, r: nat, m: nat)
    requires t == 10 * t' + d && d < 10 && t == 10 * qm + r && r < 10 * m
    ensures t' == qm + r / 10 && r / 10 < m && d == r % 10
  {
    var hi, lo := r / 10, r % 10;
    assert r == 10 * hi + lo;
    LastDigitUnique(t', d, qm + hi, lo);
  }

  /** Writing one more digit moves it from the pending low digits into the builder. */
  lemma EmittedStep(q: nat, r: nat, n: nat, sb: string, p: nat, c: char)
    requires n >= 1 && c == DigitChar(r % 10)
    ensures CarryText(q) + DigitsOf(r / 10, n - 1) + Reversed(sb + [c]) + Zeros(p)
            == CarryText(q) + DigitsOf(r, n) + Reversed(sb) + Zeros(p)
  {
    ReversedSnoc(sb, c);
    assert DigitsOf(r, n) == DigitsOf(r / 10, n - 1) + [c];
    assert DigitsOf(r / 10, n - 1) + ([c] + Reversed(sb)) == DigitsOf(r / 10, n - 1) + [c] + Reversed(sb);
  }

  /** One step of the helper in numbers: the emitted digit and the new carry split `x * v + overflow`. */
  lemma HelperStep(x: nat, front: nat, cd: nat, overflow: nat)
    ensures x * (10 * front + cd) + overflow
         == 10 * (x * front + (cd * x + overflow) / 10) + (cd * x + overflow) % 10
  {
    var product := cd * x + overflow;
    assert product == 10 * (product / 10) + product % 10;
    assert x * (10 * front + cd) == 10 * (x * front) + cd * x;
  }

  lemma CarryTextVal(c: nat)
    requires c <= 9
    ensures AllDigits(CarryText(c)) && Val(CarryText(c)) == c
    ensures |CarryText(c)| == if c > 0 then 1 else 0
  {
    if c > 0 {
      assert CarryText(c) == [DigitChar(c)];
      assert [DigitChar(c)][..0] == [];
    }
  }

  /** The carry text followed by the `n` low digits reads as the whole number. */
  lemma CarryAndLowDigits(t: nat, n: nat)
    requires Quotient(t, Pow10(n)) <= 9
    ensures var head := CarryText(Quotient(t, Pow10(n))) + DigitsOf(t % Pow10(n), n);
            AllDigits(head) && Val(head) == t &&
            |head| == n + (if t >= Pow10(n) then 1 else 0)
  {
    var m := Pow10(n);
    DivModIdentity(t, m);
    var c := Quotient(t, m);
    CarryTextVal(c);
    var low := DigitsOf(t % m, n);
    DigitsOfCorrect(t % m, n);
    DivModUnique(t % m, m, 0, t % m);
    ValAppend(CarryText(c), low);
  }

  /** One partial product of `Multiply`: a single digit `x` times `number`, shifted by `p` places.
      The carry adds at most one leading digit, exactly when the product reaches the next power. */
  lemma PartialProduct(x: nat, number: string, p: nat)
    requires x <= 9 && AllDigits(number)
    ensures var r := MultiplyByIntHelper(x, number, p, 0, "");
            AllDigits(r) && Val(r) == x * Val(number) * Pow10(p) &&
            |r| == |number| + p + (if x * Val(number) >= Pow10(|number|) then 1 else 0)
  {
    var n := |number|;
    var t := x * Val(number);
    DivModIdentity(t, Pow10(n));
    MultiplyByIntHelperCorrect(x, number, p, 0, "", Quotient(t, Pow10(n)), t % Pow10(n));
    HelperCarryAtMostEight(x, number, 0);
    var head := CarryText(Quotient(t, Pow10(n))) + DigitsOf(t % Pow10(n), n);
    assert Reversed("") == "";
    assert MultiplyByIntHelper(x, number, p, 0, "") == head + Zeros(p);
    CarryAndLowDigits(t, n);
    ValAppend(head, Zeros(p));
    ValZeros(p, "");
    assert Zeros(p) + "" == Zeros(p);
  }

  /** The carry of a single-digit multiplication never exceeds 8. */
  lemma HelperCarryAtMostEight(x: nat, number: string, overflow: nat)
    requires x <= 9 && overflow <= 8 && AllDigits(number)
    ensures Quotient(x * Val(number) + overflow, Pow10(|number|)) <= 8
  {
    ValBound(number);
    CarryBound(x, Val(number), overflow, Pow10(|number|));
  }

  lemma CarryBound(x: nat, v: nat, overflow: nat, m: nat)
    requires x <= 9 && overflow <= 8 && v < m
    ensures Quotient(x * v + overflow, m) <= 8
  {
    var a := x * v + overflow;
    assert a < 9 * m by {
      MulMonotone(x, 9, v);
    }
    var q := Quotient(a, m);
    QuotientBounds(a, m);
    if q >= 9 {
      MulMonotone(9, q, m);
      assert false;
    }
  }

  /** The next window `overflow * 10 + code` of the remainder loop, written as `dq` times the
      divisor plus `dr`, has a single-digit quotient. */
  lemma QuotientDigit(overflow: nat, divisor: nat, code: nat, dq: nat, dr: nat)
    requires divisor >= 1 && overflow < divisor && code <= 9
    requires overflow * 10 + code == dq * divisor + dr
    ensures dq < 10
  {
    if dq >= 10 {
      MulMonotone(10, dq, divisor);
      assert false;
    }
  }

  /** One step of the remainder loop on numbers: a prefix reading `v = q * divisor + overflow`
      extended by `code` reads `s * divisor + dr`, where `s` appends `dq` to `q`. */
  lemma DivideStep(v: nat, q: nat, overflow: nat, divisor: nat, code: nat, dq: nat, dr: nat, s: nat)
    requires v == q * divisor + overflow
    requires overflow * 10 + code == dq * divisor + dr && s == 10 * q + dq
    ensures 10 * v + code == s * divisor + dr
  {
    assert s * divisor == 10 * (q * divisor) + dq * divisor;
  }

  /** The loop invariant of `LongDivide` survives one more dividend digit. */
  lemma LongDivideStep(prefix: string, c: char, sb: string, overflow: nat, divisor: nat, dq: nat, dr: nat)
    requires AllDigits(prefix) && IsDigit(c) && AllDigits(sb)
    requires divisor >= 1 && overflow < divisor
    requires Val(prefix) == Val(sb) * divisor + overflow
    requires overflow * 10 + Code(c) == dq * divisor + dr && dr < divisor
    ensures dq < 10
    ensures AllDigits(prefix + [c]) && AllDigits(sb + [DigitChar(dq)])
    ensures Val(prefix + [c]) == Val(sb + [DigitChar(dq)]) * divisor + dr
  {
    QuotientDigit(overflow, divisor, Code(c), dq, dr);
    ValSnoc(prefix, c);
    ValSnoc(sb, DigitChar(dq));
    DivideStep(Val(prefix), Val(sb), overflow, divisor, Code(c), dq, dr, Val(sb + [DigitChar(dq)]));
  }

  /** The remainder loop of `DivideByInt`, left to right over the dividend, followed by the loop that
      strips the quotient's leading zeros. The strip loop indexes an empty string once every digit is
      '0', so the quotient must be non-zero: the source panics otherwise. */
  method LongDivide(dividend: string, divisor: int) returns (q: string)
    requires divisor > 0 && AllDigits(dividend)
    requires Val(dividend) >= divisor
    ensures Canonical(q) && Val(q) == Val(dividend) / divisor
    ensures q == NatToDecimal(Val(dividend) / divisor)
  {
    var sb := QuotientDigits(dividend, divisor);
    DivModIdentity(Val(dividend), divisor);
    q := StripLeadingZeros(sb);
  }

  /** The remainder loop: one quotient digit per dividend digit, left to right. */
  method QuotientDigits(dividend: string, divisor: int) returns (sb: string)
    requires divisor > 0 && AllDigits(dividend)
    ensures AllDigits(sb) && Val(sb) == Val(dividend) / divisor
  {
    sb := "";
    var overflow := 0;
    var i := 0;
    while i < |dividend|
      invariant 0 <= i <= |dividend|
      invariant 0 <= overflow < divisor
      invariant |sb| == i && AllDigits(sb)
      invariant Val(dividend[..i]) == Val(sb) * divisor + overflow
    {
      var digit := overflow * 10 + Code(dividend[i]);
      DivModIdentity(digit, divisor);
      LongDivideStep(dividend[..i], dividend[i], sb, overflow, divisor, digit / divisor, digit % divisor);
      assert dividend[..i + 1] == dividend[..i] + [dividend[i]];
      sb := sb + [DigitChar(digit / divisor)];
      overflow := digit % divisor;
      i := i + 1;
    }
    assert dividend[..i] == dividend;
    DivModUnique(Val(dividend), divisor, Val(sb), overflow);
  }

  /** The loop that drops the quotient's leading zeros; it indexes an empty string once every digit
      is '0', so the quotient must be non-zero. */
  method StripLeadingZeros(sb: string) returns (q: string)
    requires AllDigits(sb) && Val(sb) > 0
    ensures q == NatToDecimal(Val(sb)) && Canonical(q) && Val(q) == Val(sb)
  {
    var solution := sb;
    assert |solution| > 0;
    while solution[0] == '0'
      invariant AllDigits(solution) && Val(solution) == Val(sb) && |solution| > 0
      decreases |solution|
    {
      assert solution == [solution[0]] + solution[1..];
      ValCons(solution[0], solution[1..]);
      solution := solution[1..];
    }
    q := solution;
    LeadingDigit(q);
    NatToDecimalOfVal(q);
  }
}
