/** Specifications of the column algorithms of the engine: what `adder` and `subtractor` leave in
    the receiver, what the partial-product accumulation of `Multiply` builds, and the one-column
    steps their loops are proved with. */
module Columns {
  import opened Digits
  import opened Magnitude

  // ---------------------------------------------------------------------------
  // Carry addition

  /** The digits `adder` leaves in the receiver `b` after adding `addend`: the sum written with
      exactly as many digits as the longer operand, preceded by a "1" when the last column carries. */
  function SumDigits(b: string, addend: string): string
    requires AllDigits(b) && AllDigits(addend)
  {
    CarryDigits(Val(b) + Val(addend), Max(|b|, |addend|))
  }

  /** A total `t` of two `w`-digit columns written out: `w` digits, after a "1" when it carries. */
  function CarryDigits(t: nat, w: nat): string
  {
    if t >= Pow10(w) then "1" + DigitsOf(t - Pow10(w), w) else DigitsOf(t, w)
  }

  /** What the sum means: its reading is the sum of the readings; it is one digit longer than the
      longer operand exactly when the last carry is 1, and that extra digit is '1'; it has no
      superfluous leading zero when the operands have none. */
  lemma SumDigitsCorrect(b: string, addend: string)
    requires AllDigits(b) && AllDigits(addend)
    ensures var r := SumDigits(b, addend);
            var w := Max(|b|, |addend|);
            AllDigits(r) && Val(r) == Val(b) + Val(addend) &&
            |r| == w + (if Val(b) + Val(addend) >= Pow10(w) then 1 else 0) &&
            (|r| > w ==> r[0] == '1') &&
            (Canonical(b) && Canonical(addend) ==> Canonical(r))
  {
    SumDigitsShape(b, addend, Max(|b|, |addend|), Val(b) + Val(addend));
    if Canonical(b) && Canonical(addend) {
      SumDigitsCanonical(b, addend);
    }
  }

  lemma SumDigitsShape(b: string, addend: string, w: nat, t: nat)
    requires AllDigits(b) && AllDigits(addend)
    requires w == Max(|b|, |addend|) && t == Val(b) + Val(addend)
    ensures var r := SumDigits(b, addend);
            AllDigits(r) && Val(r) == t && |r| == w + (if t >= Pow10(w) then 1 else 0) &&
            (|r| > w ==> r[0] == '1')
  {
    assert t < 2 * Pow10(w) by {
      ValBound(b);
      ValBound(addend);
      Pow10Monotone(|b|, w);
      Pow10Monotone(|addend|, w);
    }
    CarryDigitsCorrect(t, w);
  }

  lemma CarryDigitsCorrect(t: nat, w: nat)
    requires t < 2 * Pow10(w)
    ensures var r := CarryDigits(t, w);
            AllDigits(r) && Val(r) == t && |r| == w + (if t >= Pow10(w) then 1 else 0) &&
            (|r| > w ==> r[0] == '1')
  {
    if t >= Pow10(w) {
      var low := DigitsOf(t - Pow10(w), w);
      DigitsOfSmall(t - Pow10(w), w);
      ValCons('1', low);
    } else {
      DigitsOfSmall(t, w);
    }
  }

  lemma SumDigitsCanonical(b: string, addend: string)
    requires Canonical(b) && Canonical(addend)
    ensures Canonical(SumDigits(b, addend))
  {
    var w := Max(|b|, |addend|);
    var t := Val(b) + Val(addend);
    var r := SumDigits(b, addend);
    SumDigitsShape(b, addend, w, t);
    if |r| > 1 && |r| == w {
      // the longer operand has a non-zero leading digit, so the sum needs all `w` digits
      assert t >= Pow10(w - 1) by {
        LeadingDigit(b);
        LeadingDigit(addend);
      }
      LeadingDigit(r);
    }
  }

  /** The sum is the same whichever operand is the receiver. */
  lemma SumDigitsCommutes(b: string, addend: string)
    requires AllDigits(b) && AllDigits(addend)
    ensures SumDigits(b, addend) == SumDigits(addend, b)
  {
  }

  /** One column of the carry loop: with the columns right of it summed into `sol` (reversed) and
      the carry `carry`, adding the digits `cx` and `cy` keeps the sum exact and the carry 0 or 1. */
  lemma AddColumn(xs: string, ys: string, sol: string, carry: int, cx: char, cy: char)
    requires AllDigits(xs) && AllDigits(ys) && AllDigits(sol) && IsDigit(cx) && IsDigit(cy)
    requires |xs| == |ys| == |sol| && 0 <= carry <= 1 && AllDigits(Reversed(sol))
    requires Val(Reversed(sol)) + (if carry == 1 then Pow10(|sol|) else 0) == Val(xs) + Val(ys)
    ensures var s := Code(cx) + Code(cy) + carry;
            0 <= s / 10 <= 1 && AllDigits(sol + [DigitChar(s % 10)]) &&
            AllDigits(Reversed(sol + [DigitChar(s % 10)])) &&
            Val(Reversed(sol + [DigitChar(s % 10)])) + (if s / 10 == 1 then Pow10(|sol| + 1) else 0) ==
            Val([cx] + xs) + Val([cy] + ys)
  {
    var s := Code(cx) + Code(cy) + carry;
    var e := DigitChar(s % 10);
    var rs := Reversed(sol);
    var p := Pow10(|sol|);
    RevSnocVal(sol, e);
    assert Val([cx] + xs) == Code(cx) * p + Val(xs) by { ValCons(cx, xs); }
    assert Val([cy] + ys) == Code(cy) * p + Val(ys) by { ValCons(cy, ys); }
    assert Pow10(|sol| + 1) == 10 * p;
    AddArith(Code(cx), Code(cy), carry, s / 10, s % 10, Val(rs), Val(xs) + Val(ys), p);
  }

  /** Appending a digit to the column digits puts it in front of their reversal. */
  lemma RevSnocVal(sol: string, e: char)
    requires AllDigits(sol) && IsDigit(e)
    ensures AllDigits(sol + [e]) && AllDigits(Reversed(sol)) && AllDigits(Reversed(sol + [e]))
    ensures Val(Reversed(sol + [e])) == Code(e) * Pow10(|sol|) + Val(Reversed(sol))
  {
    ReversedSnoc(sol, e);
    ReversedAllDigits(sol);
    ValCons(e, Reversed(sol));
  }

  /** The arithmetic of one carry column: the column total `dx + dy + c` written as digit `r` and
      carry `q`, each weighing the power `p`. */
  lemma AddArith(dx: int, dy: int, c: int, q: int, r: int, v: int, rhs: int, p: int)
    requires 0 <= c <= 1 && 0 <= q <= 1
    requires dx + dy + c == 10 * q + r
    requires v + (if c == 1 then p else 0) == rhs
    ensures r * p + v + (if q == 1 then 10 * p else 0) == dx * p + dy * p + rhs
  {
    assert c * p == (if c == 1 then p else 0);
    assert q * (10 * p) == (if q == 1 then 10 * p else 0);
    calc {
      r * p + v + q * (10 * p);
      (10 * q + r) * p + v;
      (dx + dy + c) * p + v;
      dx * p + dy * p + (v + c * p);
    }
  }

  /** The carry loop's end: the reversed column digits and the final carry spell `SumDigits`. */
  lemma SumOfColumns(b: string, addend: string, digits: string, carry: int)
    requires AllDigits(b) && AllDigits(addend) && AllDigits(digits)
    requires |digits| == Max(|b|, |addend|) && 0 <= carry <= 1
    requires Val(digits) + (if carry == 1 then Pow10(|digits|) else 0) == Val(b) + Val(addend)
    ensures carry == 0 ==> digits == SumDigits(b, addend)
    ensures carry == 1 ==> "1" + digits == SumDigits(b, addend)
  {
    var t := Val(b) + Val(addend);
    SumDigitsIs(b, addend, t, |digits|);
    ColumnDigits(t, digits, carry);
  }

  lemma SumDigitsIs(b: string, addend: string, t: nat, w: nat)
    requires AllDigits(b) && AllDigits(addend) && t == Val(b) + Val(addend) && w == Max(|b|, |addend|)
    ensures SumDigits(b, addend) == CarryDigits(t, w)
  {
  }

  lemma ColumnDigits(t: nat, digits: string, carry: int)
    requires AllDigits(digits) && 0 <= carry <= 1
    requires Val(digits) + (if carry == 1 then Pow10(|digits|) else 0) == t
    ensures carry == 0 ==> digits == CarryDigits(t, |digits|)
    ensures carry == 1 ==> "1" + digits == CarryDigits(t, |digits|)
  {
    ValBound(digits);
    DigitsOfVal(digits);
    SumOfLowDigits(t, Val(digits), digits, carry);
  }

  lemma SumOfLowDigits(t: nat, v: nat, digits: string, carry: int)
    requires 0 <= carry <= 1
    requires v < Pow10(|digits|) && DigitsOf(v, |digits|) == digits
    requires v + (if carry == 1 then Pow10(|digits|) else 0) == t
    ensures (if carry == 0 then "" else "1") + digits == CarryDigits(t, |digits|)
  {
  }

  // ---------------------------------------------------------------------------
  // Borrow subtraction

  /** The number `subtractor` computes from minuend `m` and subtrahend `s`: the borrow loop runs over
      `w = max(|m|, |s|)` columns, so it yields the difference when `m` is the larger and wraps
      around to `10^w + Val(m) - Val(s)` when it is the smaller. */
  function BorrowValue(m: string, s: string): nat
    requires AllDigits(m) && AllDigits(s)
  {
    if Val(m) >= Val(s) then Val(m) - Val(s)
    else
      assert Val(s) < Pow10(Max(|m|, |s|)) by {
        ValBound(s);
        Pow10Monotone(|s|, Max(|m|, |s|));
      }
      Pow10(Max(|m|, |s|)) + Val(m) - Val(s)
  }

  /** The digits `subtractor` leaves in the receiver: the borrow value without leading zeros. */
  function Difference(m: string, s: string): string
    requires AllDigits(m) && AllDigits(s)
  {
    NatToDecimal(BorrowValue(m, s))
  }

  /** The borrow value is the difference of the readings modulo `10^w`; it is zero exactly when the
      readings are equal. */
  lemma BorrowValueCorrect(m: string, s: string)
    requires AllDigits(m) && AllDigits(s)
    ensures BorrowValue(m, s) == (Val(m) - Val(s)) % Pow10(Max(|m|, |s|))
    ensures BorrowValue(m, s) < Pow10(Max(|m|, |s|))
    ensures BorrowValue(m, s) == 0 <==> Val(m) == Val(s)
  {
    var w := Max(|m|, |s|);
    ValBound(m);
    ValBound(s);
    Pow10Monotone(|m|, w);
    Pow10Monotone(|s|, w);
    WrapMod(Val(m), Val(s), Pow10(w), BorrowValue(m, s));
  }

  /** Subtraction modulo `p` of two residues, written as a difference that wraps once. */
  lemma WrapMod(a: nat, b: nat, p: nat, r: int)
    requires a < p && b < p && r == (if a >= b then a - b else p + a - b)
    ensures r == (a - b) % p && r < p && (r == 0 <==> a == b)
  {
    if a >= b {
      DivModUnique(a - b, p, 0, a - b);
    } else {
      DivModUnique(a - b, p, -1, p + a - b);
    }
  }

  /** `Difference` is a canonical numeral whose reading is the borrow value. */
  lemma DifferenceCorrect(m: string, s: string)
    requires AllDigits(m) && AllDigits(s)
    ensures Canonical(Difference(m, s)) && Val(Difference(m, s)) == BorrowValue(m, s)
  {
    NatToDecimalCorrect(BorrowValue(m, s));
  }

  /** The two facts about `adder` the sign dispatches need. */
  lemma SumOf(bv: string, xv: string)
    requires Canonical(bv) && Canonical(xv)
    ensures Canonical(SumDigits(bv, xv)) && Val(SumDigits(bv, xv)) == Val(bv) + Val(xv)
  {
    SumDigitsCorrect(bv, xv);
  }

  /** The two facts about `subtractor` the sign dispatches need, for a larger minuend. */
  lemma DifferenceOf(m: string, s: string)
    requires AllDigits(m) && AllDigits(s) && Val(m) > Val(s)
    ensures Canonical(Difference(m, s)) && Val(Difference(m, s)) == Val(m) - Val(s)
  {
    DifferenceCorrect(m, s);
  }

  /** A smaller minuend of the same width wraps around to `10^width` plus the difference. */
  lemma DifferenceWraps(m: string, s: string)
    requires AllDigits(m) && AllDigits(s) && |m| == |s| && Val(m) < Val(s)
    ensures Canonical(Difference(m, s)) && Val(Difference(m, s)) == Pow10(|m|) + Val(m) - Val(s)
  {
    DifferenceCorrect(m, s);
    assert Max(|m|, |s|) == |m|;
  }

  /** One column of the borrow loop: `overflow` is 0 or -1 (a pending borrow), the emitted digit
      is 0..9 and the partial difference stays exact. */
  lemma BorrowColumn(xs: string, ys: string, sol: string, overflow: int, cx: char, cy: char)
    requires AllDigits(xs) && AllDigits(ys) && AllDigits(sol) && IsDigit(cx) && IsDigit(cy)
    requires |xs| == |ys| == |sol| && -1 <= overflow <= 0 && AllDigits(Reversed(sol))
    requires Val(Reversed(sol)) - (if overflow == -1 then Pow10(|sol|) else 0) == Val(ys) - Val(xs)
    ensures var y := Code(cy) + overflow;
            var d := (if y < Code(cx) then y + 10 else y) - Code(cx);
            0 <= d < 10 && AllDigits(sol + [DigitChar(d)]) &&
            AllDigits(Reversed(sol + [DigitChar(d)])) &&
            Val(Reversed(sol + [DigitChar(d)])) - (if y < Code(cx) then Pow10(|sol| + 1) else 0) ==
            Val([cy] + ys) - Val([cx] + xs)
  {
    var y := Code(cy) + overflow;
    var o := if y < Code(cx) then -1 else 0;
    var d := (if y < Code(cx) then y + 10 else y) - Code(cx);
    var e := DigitChar(d);
    var rs := Reversed(sol);
    var p := Pow10(|sol|);
    RevSnocVal(sol, e);
    assert Val([cx] + xs) == Code(cx) * p + Val(xs) by { ValCons(cx, xs); }
    assert Val([cy] + ys) == Code(cy) * p + Val(ys) by { ValCons(cy, ys); }
    assert Pow10(|sol| + 1) == 10 * p;
    SubArith(Code(cx), Code(cy), overflow, o, d, Val(rs), Val(ys) - Val(xs), p);
  }

  /** The arithmetic of one borrow column: `dy + o - dx` written as digit `d` and borrow `o'`. */
  lemma SubArith(dx: int, dy: int, o: int, o': int, d: int, v: int, rhs: int, p: int)
    requires -1 <= o <= 0 && -1 <= o' <= 0
    requires dy + o - dx == d + 10 * o'
    requires v - (if o == -1 then p else 0) == rhs
    ensures d * p + v - (if o' == -1 then 10 * p else 0) == dy * p - dx * p + rhs
  {
    assert o * p == -(if o == -1 then p else 0);
    assert o' * (10 * p) == -(if o' == -1 then 10 * p else 0);
    calc {
      d * p + v + o' * (10 * p);
      (d + 10 * o') * p + v;
      (dy + o - dx) * p + v;
      dy * p - dx * p + (v + o * p);
    }
  }

  /** The borrow loop's end: the reversed column digits read as the borrow value. */
  lemma DifferenceOfColumns(m: string, s: string, digits: string, overflow: int)
    requires AllDigits(m) && AllDigits(s) && AllDigits(digits)
    requires |digits| == Max(|m|, |s|) && -1 <= overflow <= 0
    requires Val(digits) - (if overflow == -1 then Pow10(|digits|) else 0) == Val(m) - Val(s)
    ensures Val(digits) == BorrowValue(m, s)
  {
    ValBound(digits);
  }

  /** Dropping a '0' from the end of the column digits drops a leading zero of their reversal. */
  lemma StripTrailingZero(sol: string)
    requires AllDigits(sol) && |sol| > 0 && sol[|sol| - 1] == '0'
    ensures AllDigits(sol[..|sol| - 1])
    ensures AllDigits(Reversed(sol)) && AllDigits(Reversed(sol[..|sol| - 1]))
    ensures Val(Reversed(sol[..|sol| - 1])) == Val(Reversed(sol))
  {
    var front := sol[..|sol| - 1];
    assert sol == front + ['0'];
    ReversedSnoc(front, '0');
    ReversedAllDigits(front);
    ReversedAllDigits(sol);
    ValCons('0', Reversed(front));
  }

  // ---------------------------------------------------------------------------
  // Multiplication by partial products

  /** The partial product for the `k`-th digit of `multiplier` from the right (k >= 1): that digit
      times `number`, shifted by `k - 1` zeros, as `multiplyByIntHelper` writes it. */
  function PartialProductDigits(number: string, multiplier: string, k: nat): (r: string)
    requires AllDigits(number) && AllDigits(multiplier) && 1 <= k <= |multiplier|
    ensures AllDigits(r)
  {
    var d := Code(multiplier[|multiplier| - k]);
    PartialProduct(d, number, k - 1);
    MultiplyByIntHelper(d, number, k - 1, 0, "")
  }

  /** The partial product reads as its digit times `number`, shifted by `k - 1` places. */
  lemma PartialProductVal(number: string, multiplier: string, k: nat)
    requires AllDigits(number) && AllDigits(multiplier) && 1 <= k <= |multiplier|
    ensures Val(PartialProductDigits(number, multiplier, k))
            == Code(multiplier[|multiplier| - k]) * Val(number) * Pow10(k - 1)
  {
    PartialProduct(Code(multiplier[|multiplier| - k]), number, k - 1);
  }

  /** The receiver of `Multiply` after the first `k` rounds of its loop: "0" to begin with, then each
      round adds the next partial product with `adder`. */
  function Accumulated(number: string, multiplier: string, k: nat): (r: string)
    requires AllDigits(number) && AllDigits(multiplier) && k <= |multiplier|
    ensures AllDigits(r)
  {
    if k == 0 then "0"
    else
      var acc := Accumulated(number, multiplier, k - 1);
      var p := PartialProductDigits(number, multiplier, k);
      SumDigitsCorrect(acc, p);
      SumDigits(acc, p)
  }

  /** Round `k` of `Multiply` adds the `k`-th partial product to the accumulator. */
  lemma AccumulatedStep(number: string, multiplier: string, k: nat)
    requires AllDigits(number) && AllDigits(multiplier) && 1 <= k <= |multiplier|
    ensures Accumulated(number, multiplier, k)
            == SumDigits(Accumulated(number, multiplier, k - 1), PartialProductDigits(number, multiplier, k))
  {
  }

  /** The `k`-th partial product is the text `multiplyByIntHelper` returns for the `k`-th digit from
      the right, at least as long as `number`. */
  lemma PartialProductText(number: string, multiplier: string, k: nat)
    requires AllDigits(number) && AllDigits(multiplier) && 1 <= k <= |multiplier|
    ensures var d := Code(multiplier[|multiplier| - k]);
            d <= 9 && PartialProductDigits(number, multiplier, k) == MultiplyByIntHelper(d, number, k - 1, 0, "")
    ensures |PartialProductDigits(number, multiplier, k)| >= |number|
  {
    PartialProduct(Code(multiplier[|multiplier| - k]), number, k - 1);
  }

  /** After `k` rounds the accumulator reads as `number` times the last `k` digits of `multiplier`. */
  lemma {:induction false} AccumulatedVal(number: string, multiplier: string, k: nat)
    requires AllDigits(number) && AllDigits(multiplier) && k <= |multiplier|
    ensures AllDigits(multiplier[|multiplier| - k..])
    ensures Val(Accumulated(number, multiplier, k)) == Val(number) * Val(multiplier[|multiplier| - k..])
  {
    if k == 0 {
      AccumulatedValBase(number, multiplier, k);
    } else {
      AccumulatedVal(number, multiplier, k - 1);
      AccumulatedValStep(number, multiplier, k);
    }
  }

  lemma AccumulatedValBase(number: string, multiplier: string, k: nat)
    requires AllDigits(number) && AllDigits(multiplier) && k == 0
    ensures AllDigits(multiplier[|multiplier| - k..])
    ensures Val(Accumulated(number, multiplier, k)) == Val(number) * Val(multiplier[|multiplier| - k..])
  {
    assert multiplier[|multiplier|..] == [];
    assert "0"[..0] == [];
  }

  /** One round of `AccumulatedVal`: from `k - 1` digits of `multiplier` to `k`. */
  lemma AccumulatedValStep(number: string, multiplier: string, k: nat)
    requires AllDigits(number) && AllDigits(multiplier) && 1 <= k <= |multiplier|
    ensures AllDigits(multiplier[|multiplier| - k..]) && AllDigits(multiplier[|multiplier| - (k - 1)..])
    ensures Val(Accumulated(number, multiplier, k - 1)) == Val(number) * Val(multiplier[|multiplier| - (k - 1)..])
            ==> Val(Accumulated(number, multiplier, k)) == Val(number) * Val(multiplier[|multiplier| - k..])
  {
    var n := |multiplier|;
    TailSplit(multiplier, k);
    if Val(Accumulated(number, multiplier, k - 1)) == Val(number) * Val(multiplier[|multiplier| - (k - 1)..]) {
    var acc := Accumulated(number, multiplier, k - 1);
    var p := PartialProductDigits(number, multiplier, k);
    var r := Accumulated(number, multiplier, k);
    assert Val(r) == Val(acc) + Val(p) by {
      SumDigitsCorrect(acc, p);
    }
    var low := multiplier[n - (k - 1)..];
    var tail := multiplier[n - k..];
    PartialProductVal(number, multiplier, k);
    TailSplit(multiplier, k);
    ShiftedProduct(Val(number), Code(multiplier[n - k]), Val(low), Pow10(k - 1), Val(acc), Val(p), Val(r), Val(tail));
    }
  }

  /** The last `k` digits read as the `k`-th digit from the right, shifted, plus the last `k - 1`. */
  lemma TailSplit(multiplier: string, k: nat)
    requires AllDigits(multiplier) && 1 <= k <= |multiplier|
    ensures AllDigits(multiplier[|multiplier| - k..]) && AllDigits(multiplier[|multiplier| - (k - 1)..])
    ensures Val(multiplier[|multiplier| - k..])
            == Code(multiplier[|multiplier| - k]) * Pow10(k - 1) + Val(multiplier[|multiplier| - (k - 1)..])
  {
    var n := |multiplier|;
    var low := multiplier[n - (k - 1)..];
    assert multiplier[n - k..] == [multiplier[n - k]] + low;
    ValCons(multiplier[n - k], low);
  }

  lemma ShiftedProduct(v: int, d: int, low: int, p: int, a: int, pp: int, r: int, t: int)
    requires a == v * low && pp == d * v * p && r == a + pp && t == d * p + low
    ensures r == v * t
  {
    assert v * t == v * (d * p) + v * low;
  }

  /** The accumulator is always as short as its reading allows above the width
      `|number| + k - 1` of the last partial product: one digit longer exactly when it needs it. */
  lemma {:induction false} AccumulatedLength(number: string, multiplier: string, k: nat)
    requires AllDigits(number) && AllDigits(multiplier) && 1 <= k <= |multiplier| && |number| >= 1
    ensures var r := Accumulated(number, multiplier, k);
            var w := |number| + k - 1;
            |r| == w + (if Val(r) >= Pow10(w) then 1 else 0)
  {
    if k > 1 {
      AccumulatedLength(number, multiplier, k - 1);
    }
    AccumulatedLengthStep(number, multiplier, k);
  }

  /** One round of `AccumulatedLength`: an accumulator within the width of the last partial product
      stays tight after the next one is added. */
  lemma AccumulatedLengthStep(number: string, multiplier: string, k: nat)
    requires AllDigits(number) && AllDigits(multiplier) && 1 <= k <= |multiplier| && |number| >= 1
    ensures |Accumulated(number, multiplier, k - 1)| <= |number| + k - 1 ==>
            var r := Accumulated(number, multiplier, k);
            var w := |number| + k - 1;
            |r| == w + (if Val(r) >= Pow10(w) then 1 else 0)
  {
    var w := |number| + k - 1;
    var acc := Accumulated(number, multiplier, k - 1);
    if |acc| <= w {
      var p := PartialProductDigits(number, multiplier, k);
      PartialProductWidth(number, multiplier, k);
      AccumulatedSumBound(number, multiplier, k);
      AccumulatedStep(number, multiplier, k);
      SumDigitsTight(acc, p, w);
    }
  }

  /** The `k`-th partial product is `|number| + k - 1` digits long, or one more with the carry digit. */
  lemma PartialProductWidth(number: string, multiplier: string, k: nat)
    requires AllDigits(number) && AllDigits(multiplier) && 1 <= k <= |multiplier|
    ensures var p := PartialProductDigits(number, multiplier, k);
            var w := |number| + k - 1;
            |p| >= w && |p| <= w + 1 && (|p| == w + 1 ==> Val(p) >= Pow10(w))
  {
    var n := |multiplier|;
    var d := Code(multiplier[n - k]);
    PartialProduct(d, number, k - 1);
    Pow10Add(|number|, k - 1);
    if d * Val(number) >= Pow10(|number|) {
      MulMonotone(Pow10(|number|), d * Val(number), Pow10(k - 1));
    }
  }

  /** The sum formed in round `k` stays below `10^(|number| + k)`. */
  lemma AccumulatedSumBound(number: string, multiplier: string, k: nat)
    requires AllDigits(number) && AllDigits(multiplier) && 1 <= k <= |multiplier|
    ensures Val(Accumulated(number, multiplier, k - 1)) + Val(PartialProductDigits(number, multiplier, k))
            < Pow10(|number| + k)
  {
    var n := |multiplier|;
    var tail := multiplier[n - k..];
    assert AllDigits(tail) && Val(tail) < Pow10(k) by { AllDigitsSlice(multiplier, n - k, n); ValBound(tail); }
    assert Val(number) < Pow10(|number|) by { ValBound(number); }
    assert Pow10(|number| + k) == Pow10(|number|) * Pow10(k) by { Pow10Add(|number|, k); }
    var s := Val(Accumulated(number, multiplier, k - 1)) + Val(PartialProductDigits(number, multiplier, k));
    assert s == Val(number) * Val(tail) by {
      SumDigitsCorrect(Accumulated(number, multiplier, k - 1), PartialProductDigits(number, multiplier, k));
      AccumulatedVal(number, multiplier, k);
    }
    SumBelowProduct(s, Val(number), Pow10(|number|), Val(tail), Pow10(k), Pow10(|number| + k));
  }

  lemma SumBelowProduct(s: nat, a: nat, x: nat, b: nat, y: nat, z: nat)
    requires s == a * b && a < x && b < y && z == x * y
    ensures s < z
  {
    MulStrict(a, x, b, y);
  }

  lemma MulStrict(a: nat, x: nat, b: nat, y: nat)
    requires a < x && b < y
    ensures a * b < x * y
  {
    MulMonotone(a, x, b);
    MulMonotone(b, y, x);
    if b == 0 {
    } else {
      assert a * b <= x * b;
      assert x * b < x * y by { MulBelow(x, b, y); }
    }
  }

  lemma MulBelow(x: nat, b: nat, y: nat)
    requires x >= 1 && b < y
    ensures x * b < x * y
  {
    assert x * y == x * b + x * (y - b);
    MulAtLeast(y - b, x);
  }

  /** Adding two operands that fit the width `w` (or are one digit longer with a leading non-zero
      digit) gives a sum one digit longer than `w` exactly when its reading needs it. */
  lemma SumDigitsTight(a: string, b: string, w: nat)
    requires AllDigits(a) && AllDigits(b)
    requires Max(|a|, |b|) >= w && |a| <= w + 1 && |b| <= w + 1
    requires |a| == w + 1 ==> Val(a) >= Pow10(w)
    requires |b| == w + 1 ==> Val(b) >= Pow10(w)
    requires Val(a) + Val(b) < Pow10(w + 1)
    ensures AllDigits(SumDigits(a, b))
    ensures |SumDigits(a, b)| == w + (if Val(SumDigits(a, b)) >= Pow10(w) then 1 else 0)
  {
    SumDigitsCorrect(a, b);
  }

  /** `Multiply` as a whole: the final accumulator reads as the product; on canonical operands it is
      canonical when both are non-zero and a non-empty run of '0' otherwise ("000" for "123" * "0"). */
  lemma ProductCorrect(number: string, multiplier: string)
    requires AllDigits(number) && AllDigits(multiplier)
    ensures Val(Accumulated(number, multiplier, |multiplier|)) == Val(number) * Val(multiplier)
    ensures Canonical(number) && Canonical(multiplier) ==> |Accumulated(number, multiplier, |multiplier|)| > 0
    ensures Canonical(number) && Canonical(multiplier) && Val(number) > 0 && Val(multiplier) > 0 ==>
              Canonical(Accumulated(number, multiplier, |multiplier|))
    ensures Canonical(number) && Canonical(multiplier) && (Val(number) == 0 || Val(multiplier) == 0) ==>
              var r := Accumulated(number, multiplier, |multiplier|);
              forall i :: 0 <= i < |r| ==> r[i] == '0'
  {
    var r := Accumulated(number, multiplier, |multiplier|);
    assert Val(r) == Val(number) * Val(multiplier) by {
      AccumulatedVal(number, multiplier, |multiplier|);
      assert multiplier[0..] == multiplier;
    }
    if Canonical(number) && Canonical(multiplier) {
      if Val(number) > 0 && Val(multiplier) > 0 {
        ProductLowerBound(number, multiplier, Val(r));
      } else {
        ZeroProduct(Val(r), Val(number), Val(multiplier));
      }
      ProductShape(number, multiplier);
    }
  }

  /** The shape of the final accumulator on canonical operands, from its length and a bound on its
      reading. */
  lemma ProductShape(number: string, multiplier: string)
    requires Canonical(number) && Canonical(multiplier)
    requires Val(number) > 0 && Val(multiplier) > 0 ==>
               Val(Accumulated(number, multiplier, |multiplier|)) >= Pow10(|number| + |multiplier| - 2)
    requires Val(number) == 0 || Val(multiplier) == 0 ==> Val(Accumulated(number, multiplier, |multiplier|)) == 0
    ensures |Accumulated(number, multiplier, |multiplier|)| > 0
    ensures Val(number) > 0 && Val(multiplier) > 0 ==> Canonical(Accumulated(number, multiplier, |multiplier|))
    ensures Val(number) == 0 || Val(multiplier) == 0 ==>
              var r := Accumulated(number, multiplier, |multiplier|);
              forall i :: 0 <= i < |r| ==> r[i] == '0'
  {
    AccumulatedLength(number, multiplier, |multiplier|);
    if Val(number) > 0 && Val(multiplier) > 0 {
      TightCanonical(Accumulated(number, multiplier, |multiplier|), |number| + |multiplier| - 1);
    } else {
      ValAllZeros(Accumulated(number, multiplier, |multiplier|));
    }
  }

  /** A digit string exactly as long as its reading needs above the width `w`, and reading at least
      `10^(w-1)`, has a non-zero leading digit. */
  lemma TightCanonical(r: string, w: nat)
    requires AllDigits(r) && w >= 1 && |r| == w + (if Val(r) >= Pow10(w) then 1 else 0)
    requires Val(r) >= Pow10(w - 1)
    ensures Canonical(r)
  {
    LeadingDigit(r);
  }

  lemma ZeroProduct(v: nat, a: nat, b: nat)
    requires v == a * b && (a == 0 || b == 0)
    ensures v == 0
  {
  }

  /** A product of canonical non-zero operands has at least `|a| + |b| - 1` digits. */
  lemma ProductLowerBound(a: string, b: string, v: nat)
    requires Canonical(a) && Canonical(b) && Val(a) > 0 && Val(b) > 0 && v == Val(a) * Val(b)
    ensures v >= Pow10(|a| + |b| - 2)
  {
    LeadingDigit(a);
    LeadingDigit(b);
    assert a[0] != '0' && b[0] != '0';
    assert Pow10(|a| + |b| - 2) == Pow10(|a| - 1) * Pow10(|b| - 1) by { Pow10Add(|a| - 1, |b| - 1); }
    ProductAtLeast(Val(a), Pow10(|a| - 1), Val(b), Pow10(|b| - 1));
  }

  lemma ProductAtLeast(x: nat, lx: nat, y: nat, ly: nat)
    requires x >= lx && y >= ly
    ensures x * y >= lx * ly
  {
    MulMonotone(lx, x, ly);
    MulMonotone(ly, y, x);
  }
}
