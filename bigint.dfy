/** The sign-magnitude decimal integer of `bigint/bigint.go`: a digit string `value`, most
    significant digit first, and a flag `negative`. Every operation overwrites the receiver. */
module BigInts {
  import opened Digits
  import opened Magnitude
  import opened Columns

  datatype Option<T> = None | Some(value: T)

  /** The integer a sign-magnitude pair stands for; "-0" stands for 0 like "0". */
  function IntOf(value: string, negative: bool): int
    requires AllDigits(value)
  {
    if negative then -(Val(value) as int) else Val(value)
  }

  // ---------------------------------------------------------------------------
  // Construction and printing

  /** The fields `NewBigInt` builds from a non-empty string, or `None` when it reports an error:
      an optional leading '-' followed by digits only (possibly none). */
  function Parse(v: string): (r: Option<(string, bool)>)
    requires |v| > 0
    ensures r.Some? <==> AllDigits(v) || (v[0] == '-' && AllDigits(v[1..]))
    ensures r.Some? ==> AllDigits(r.value.0) && (r.value.1 <==> v[0] == '-')
    ensures r.Some? ==> v == (if r.value.1 then "-" else "") + r.value.0
  {
    if v[0] == '-' then
      if AllDigits(v[1..]) then Some((v[1..], true)) else None
    else if AllDigits(v) then Some((v, false))
    else None
  }

  /** `NewBigInt`: on an invalid string the zero-valued `BigInt{}` and an error. The source indexes
      `v[0]`, so the empty string is not accepted. */
  method NewBigInt(v: string) returns (b: BigInt, err: Option<string>)
    requires |v| > 0
    ensures fresh(b) && b.Valid()
    ensures err.None? <==> Parse(v).Some?
    ensures Parse(v).Some? ==> b.value == Parse(v).value.0 && b.negative == Parse(v).value.1
    ensures err.Some? ==> b.value == "" && !b.negative && err.value == "not a valid big int string"
  {
    if v[0] == '-' {
      var newV := v[1..];
      var ok := CheckDigits(newV);
      if !ok {
        b := new BigInt("", false);
        err := Some("not a valid big int string");
        return;
      }
      b := new BigInt(newV, true);
      err := None;
      return;
    }
    var ok := CheckDigits(v);
    if !ok {
      b := new BigInt("", false);
      err := Some("not a valid big int string");
      return;
    }
    b := new BigInt(v, false);
    err := None;
  }

  /** What `CompareTo` answers for two sign-magnitude pairs: any non-negative flag is above any
      negative one, two non-negatives compare by magnitude, two negatives by reversed magnitude. */
  function SignedCompare(bv: string, bn: bool, xv: string, xn: bool): int
  {
    if !bn && !xn then CompareDigits(bv, xv)
    else if !bn && xn then 1
    else if bn && xn then -CompareDigits(bv, xv)
    else -1
  }

  // ---------------------------------------------------------------------------
  // The sign dispatch of Add and Subtract

  /** `Add` and `Subtract` call `subtractor`, which fails on equal readings, whenever the signs
      call for a subtraction and `compareValues` does not report equal strings. */
  predicate AddSafe(bv: string, bn: bool, xv: string, xn: bool)
    requires AllDigits(bv) && AllDigits(xv)
  {
    CompareDigits(bv, xv) != 0 && bn != xn ==> Val(bv) != Val(xv)
  }

  predicate SubtractSafe(bv: string, bn: bool, xv: string, xn: bool)
    requires AllDigits(bv) && AllDigits(xv)
  {
    CompareDigits(bv, xv) != 0 && bn == xn ==> Val(bv) != Val(xv)
  }

  /** The fields `Add` leaves in the receiver, case by case on what `compareValues` reported (`c`)
      and the two signs. When the receiver is reported smaller and the signs differ, the sign is
      always negative. The subtractions rely on `subtractor` itself seeing the larger string first. */
  function AddCases(c: int, bv: string, bn: bool, xv: string, xn: bool): (r: (string, bool))
    requires AllDigits(bv) && AllDigits(xv)
    ensures AllDigits(r.0)
  {
    SumDigitsCorrect(bv, xv);
    DifferenceCorrect(xv, bv);
    DifferenceCorrect(bv, xv);
    if c == -1 then
      if bn == xn then (SumDigits(bv, xv), bn) else (Difference(xv, bv), true)
    else if c == 1 then
      if bn == xn then (SumDigits(bv, xv), bn) else (Difference(bv, xv), bn)
    else
      if bn == xn then (SumDigits(bv, xv), bn) else ("0", false)
  }

  /** The fields `Subtract` leaves in the receiver, case by case on what `compareValues` reported
      and the signs. */
  function SubtractCases(c: int, bv: string, bn: bool, xv: string, xn: bool): (r: (string, bool))
    requires AllDigits(bv) && AllDigits(xv)
    ensures AllDigits(r.0)
  {
    SumDigitsCorrect(bv, xv);
    DifferenceCorrect(xv, bv);
    DifferenceCorrect(bv, xv);
    if c == -1 then
      if bn != xn then (SumDigits(bv, xv), bn) else (Difference(xv, bv), !bn)
    else if c == 1 then
      if bn != xn then (SumDigits(bv, xv), bn) else (Difference(bv, xv), bn)
    else
      if bn != xn then (SumDigits(bv, xv), bn) else ("0", false)
  }

  /** Operands of the same sign are always added, whatever `compareValues` reported. */
  lemma AddCasesSameSign(c: int, bv: string, bn: bool, xv: string)
    requires AllDigits(bv) && AllDigits(xv)
    ensures AddCases(c, bv, bn, xv, bn) == (SumDigits(bv, xv), bn)
  {
  }

  // ---------------------------------------------------------------------------
  // Division by repeated subtraction

  /** A divisor with a superfluous leading zero ("05"): `compareValues` then ranks every canonical
      value at least as long as the divisor above it. */
  predicate LeadingZeroDivisor(xv: string)
  {
    |xv| >= 2 && xv[0] == '0'
  }

  /** The least reading of a canonical positive value that `compareValues` ranks at or above `xv`. */
  function Threshold(xv: string): (t: nat)
    requires AllDigits(xv)
    ensures Val(xv) <= t
    ensures LeadingZeroDivisor(xv) ==> Val(xv) < t
  {
    if LeadingZeroDivisor(xv) then
      LeadingDigit(xv);
      Pow10(|xv| - 1)
    else Val(xv)
  }

  /** How many further subtractions of `x` the loop of `Divide` makes from `b1` while the running
      value is at least the threshold `t`, and the value it stops at. */
  function DivideRounds(b1: nat, x: nat, t: nat): (r: (nat, nat))
    requires x <= t && (b1 < t || x > 0)
    ensures r.1 + r.0 * x == b1 && r.1 < t
    ensures r.0 == 0 || r.1 + x >= t
  {
    if b1 < t then (0, b1)
    else
      var q := Quotient(b1 - t, x);
      RoundsArith(b1, x, t, q);
      (q + 1, b1 - (q + 1) * x)
  }

  lemma RoundsArith(b1: nat, x: nat, t: nat, q: nat)
    requires x <= t && t <= b1 && q * x <= b1 - t < (q + 1) * x
    ensures (q + 1) * x <= b1
    ensures (b1 - (q + 1) * x) + (q + 1) * x == b1 && b1 - (q + 1) * x < t
    ensures b1 - (q + 1) * x + x >= t
  {
    assert (q + 1) * x == q * x + x;
  }

  /** `Divide` neither fails in `subtractor` nor loops forever: the first subtraction must not meet
      equal readings, a zero divisor must stop the loop at once, and a divisor without a leading zero
      must not divide the first difference (the loop would reach equal readings). */
  predicate DivideSafe(bv: string, xv: string)
    requires AllDigits(bv) && AllDigits(xv)
  {
    CompareDigits(bv, xv) == 1 ==>
      Val(bv) != Val(xv) &&
      (Val(xv) > 0 || BorrowValue(bv, xv) < Threshold(xv)) &&
      (!LeadingZeroDivisor(xv) && Val(xv) > 0 ==> BorrowValue(bv, xv) % Val(xv) != 0)
  }

  /** The quotient digits and the remainder `Divide` produces, case by case on `compareValues`. */
  function DivideOutcome(bv: string, xv: string): (string, string)
    requires AllDigits(bv) && AllDigits(xv) && DivideSafe(bv, xv)
  {
    var c := CompareDigits(bv, xv);
    if c == 1 then
      var r := DivideRounds(BorrowValue(bv, xv), Val(xv), Threshold(xv));
      (NatToDecimal(1 + r.0), NatToDecimal(r.1))
    else if c == -1 then ("0", bv)
    else ("1", "0")
  }

  class BigInt {
    var value: string
    var negative: bool

    constructor (value: string, negative: bool)
      ensures this.value == value && this.negative == negative
    {
      this.value := value;
      this.negative := negative;
    }

    /** Every `BigInt` the package builds holds digits only. */
    predicate Valid()
      reads this
    {
      AllDigits(value)
    }

    /** `ToString`: the digits, after a '-' when the flag is set. */
    function ToString(): (s: string)
      reads this
      ensures |s| == |value| + (if negative then 1 else 0)
      ensures s[|s| - |value|..] == value
      ensures Valid() ==> (|s| > 0 && s[0] == '-' <==> negative)
    {
      if negative then "-" + value else value
    }

    /** `Negate` flips the sign flag and nothing else. */
    method Negate()
      modifies this
      ensures value == old(value) && negative == !old(negative)
    {
      negative := !negative;
    }

    /** `compareValues`: the magnitude order, by length and then by the first differing digit. */
    method CompareValues(x: BigInt) returns (c: int)
      ensures c == CompareDigits(value, x.value)
    {
      if |value| > |x.value| {
        return 1;
      }
      if |value| < |x.value| {
        return -1;
      }
      c := CompareRunes(value, x.value);
    }

    /** `CompareTo`: the order of the signed values, flags first. */
    method CompareTo(x: BigInt) returns (c: int)
      ensures c == SignedCompare(value, negative, x.value, x.negative)
    {
      if !negative && !x.negative {
        if |value| > |x.value| {
          return 1;
        }
        if |value| < |x.value| {
          return -1;
        }
        c := CompareRunes(value, x.value);
        return;
      }
      if !negative && x.negative {
        return 1;
      }
      if negative && x.negative {
        if |value| > |x.value| {
          return -1;
        }
        if |value| < |x.value| {
          return 1;
        }
        c := CompareRunes(x.value, value);
        LexCompareProperties(value, x.value);
        return;
      }
      c := -1;
    }

    /** `adder`: sums the receiver's digits with those of `addend` column by column from the
        right, leaving the sign alone. */
    method Adder(addend: BigInt)
      requires Valid() && addend.Valid()
      modifies this
      ensures value == SumDigits(old(value), old(addend.value)) && negative == old(negative)
      ensures Valid()
    {
      var bv, av := value, addend.value;
      SumDigitsCorrect(bv, av);
      var xy := EqualLengths(av, bv);
      EqualLengthsVal(av, bv);
      var solution, overflow := AddColumns(xy.0, xy.1);
      AdderDigits(bv, av, solution, overflow);
      var s := "1";
      if overflow == 0 {
        s := "";
      }
      var r := Reverse(solution);
      value := s + r;
    }

    /** `subtractor`: the borrow loop from the right, then the zeros left over from borrowing are
        stripped. The strip loop runs off the end when the difference is zero, so the readings must
        differ; a minuend below the subtrahend wraps around. */
    method Subtractor(subtrahend: BigInt)
      requires Valid() && subtrahend.Valid() && Val(value) != Val(subtrahend.value)
      modifies this
      ensures value == Difference(old(value), old(subtrahend.value)) && negative == old(negative)
      ensures Canonical(value) && Val(value) > 0
    {
      var mv, sv := value, subtrahend.value;
      var xy := EqualLengths(sv, mv);
      EqualLengthsVal(sv, mv);
      var sb, overflow := BorrowColumns(xy.0, xy.1);
      DifferenceOfColumns(mv, sv, Reversed(sb), overflow);
      ghost var d := BorrowValue(mv, sv);
      BorrowValueCorrect(mv, sv);
      var solution := StripTrailingZeros(sb);
      var result := Reverse(solution);
      ReversedCanonical(solution);
      NatToDecimalOfVal(result);
      value := result;
    }

    /** `Add`: the twelve-way dispatch on `compareValues` and the two signs. The branches where the
        receiver is smaller but the signs differ subtract the receiver from `x` in place and put
        `x`'s digits back afterwards. */
    method Add(x: BigInt)
      requires Valid() && x.Valid() && AddSafe(value, negative, x.value, x.negative)
      modifies this, x
      ensures (value, negative) == AddCases(CompareDigits(old(value), old(x.value)), old(value), old(negative), old(x.value), old(x.negative))
      ensures x != this ==> x.value == old(x.value) && x.negative == old(x.negative)
    {
      CompareDigitsProperties(value, x.value);
      var c := CompareValues(x);
      if c == -1 {
        if !negative && x.negative {
          var xValue := x.value;
          x.Subtractor(this);
          value := x.value;
          negative := true;
          x.value := xValue;
        } else if !negative && !x.negative {
          Adder(x);
          negative := false;
        } else if negative && x.negative {
          Adder(x);
          negative := true;
        } else {
          var xValue := x.value;
          x.Subtractor(this);
          value := x.value;
          negative := true;
          x.value := xValue;
        }
      } else if c == 1 {
        if !negative && x.negative {
          Subtractor(x);
          negative := false;
        } else if !negative && !x.negative {
          Adder(x);
          negative := false;
        } else if negative && x.negative {
          Adder(x);
          negative := true;
        } else {
          Subtractor(x);
          negative := true;
        }
      } else {
        if !negative && !x.negative {
          Adder(x);
          negative := false;
        } else if !negative && x.negative {
          value := "0";
          negative := false;
        } else if negative && !x.negative {
          value := "0";
          negative := false;
        } else {
          Adder(x);
          negative := true;
        }
      }
    }

    /** `Subtract`: the same dispatch with the roles of the signs exchanged. */
    method Subtract(x: BigInt)
      requires Valid() && x.Valid() && SubtractSafe(value, negative, x.value, x.negative)
      modifies this, x
      ensures (value, negative) == SubtractCases(CompareDigits(old(value), old(x.value)), old(value), old(negative), old(x.value), old(x.negative))
      ensures x != this ==> x.value == old(x.value) && x.negative == old(x.negative)
    {
      CompareDigitsProperties(value, x.value);
      var c := CompareValues(x);
      if c == -1 {
        if !negative && x.negative {
          Adder(x);
          negative := false;
        } else if !negative && !x.negative {
          var xValue := x.value;
          x.Subtractor(this);
          value := x.value;
          x.value := xValue;
          negative := true;
        } else if negative && x.negative {
          var xValue := x.value;
          x.Subtractor(this);
          value := x.value;
          x.value := xValue;
          negative := false;
        } else {
          Adder(x);
          negative := true;
        }
      } else if c == 1 {
        if !negative && x.negative {
          Adder(x);
          negative := false;
        } else if !negative && !x.negative {
          Subtractor(x);
          negative := false;
        } else if negative && x.negative {
          Subtractor(x);
          negative := true;
        } else {
          Adder(x);
          negative := true;
        }
      } else {
        if !negative && !x.negative {
          value := "0";
          negative := false;
        } else if !negative && x.negative {
          Adder(x);
          negative := false;
        } else if negative && !x.negative {
          Adder(x);
          negative := true;
        } else {
          value := "0";
          negative := false;
        }
      }
    }

    /** `Multiply`: resets the receiver to "0" and adds one partial product per digit of `x`,
        rightmost first; the sign is set from the two flags. The source builds each partial product
        with `NewBigInt`, which needs a non-empty string, so an empty receiver can only be multiplied
        by an empty `x`. */
    method Multiply(x: BigInt)
      requires Valid() && x.Valid() && x != this
      requires value != "" || x.value == ""
      modifies this
      ensures value == Accumulated(old(value), x.value, |x.value|)
      ensures negative == (old(negative) != x.negative)
    {
      var xRunes := x.value;
      var number := value;
      value := "0";
      var i := 0;
      while i < |x.value|
        invariant 0 <= i <= |xRunes| && x.value == xRunes && AllDigits(number) && AllDigits(xRunes)
        invariant value == Accumulated(number, xRunes, i) && negative == old(negative)
        invariant number != "" || xRunes == ""
      {
        AddPartialProduct(number, xRunes, i);
        assert value == Accumulated(number, xRunes, i + 1) by {
          AccumulatedStep(number, xRunes, i + 1);
        }
        i := i + 1;
      }
      assert i == |xRunes| && value == Accumulated(number, xRunes, |xRunes|);
      if negative == x.negative {
        negative := false;
      } else {
        negative := true;
      }
    }

    /** The body of the loop of `Multiply`: the partial product for the digit `i` places from the
        right of `multiplier` is built by `multiplyByIntHelper`, wrapped by `NewBigInt` and added to
        the receiver with `adder`. */
    method AddPartialProduct(number: string, multiplier: string, i: nat)
      requires Valid() && AllDigits(number) && AllDigits(multiplier) && i < |multiplier| && number != ""
      modifies this
      ensures value == SumDigits(old(value), PartialProductDigits(number, multiplier, i + 1))
      ensures negative == old(negative)
    {
      var d := Code(multiplier[|multiplier| - 1 - i]);
      var digits := MultiplyByIntHelper(d, number, i, 0, "");
      assert digits == PartialProductDigits(number, multiplier, i + 1) && Parse(digits) == Some((digits, false)) by {
        PartialProductText(number, multiplier, i + 1);
        NotMinus(digits);
      }
      var newB, err := NewBigInt(digits);
      Adder(newB);
    }

    /** `DivideByInt`: long division by a positive machine integer, the sign left alone. A zero
        divisor ends the process in the source, and a zero quotient makes its strip loop run off the
        end, so the divisor must be positive and at most the receiver's reading. */
    method DivideByInt(divisor: int)
      requires Valid() && divisor > 0 && Val(value) >= divisor
      modifies this
      ensures value == NatToDecimal(Val(old(value)) / divisor) && negative == old(negative)
      ensures Valid()
    {
      NatToDecimalCorrect(Val(value) / divisor);
      var solution := LongDivide(value, divisor);
      value := solution;
    }

    /** `Divide`: by repeated subtraction when `compareValues` ranks the receiver above `x`;
        otherwise quotient "0" with the receiver's digits as remainder, or "1" with remainder "0".
        The sign is set from the two flags in every case. */
    method Divide(x: BigInt) returns (remainder: string)
      requires Valid() && x.Valid() && DivideSafe(value, x.value)
      modifies this
      ensures (value, remainder) == DivideOutcome(old(value), old(x.value))
      ensures negative == (old(negative) != old(x.negative))
      ensures Valid() && AllDigits(remainder)
    {
      CompareDigitsProperties(value, x.value);
      remainder := "0";
      ghost var b0 := value;
      ghost var xv := x.value;
      var c := CompareValues(x);
      if c == 1 {
        ghost var b1 := BorrowValue(b0, xv);
        ghost var X := Val(xv);
        ghost var T := Threshold(xv);
        var subtractions := 0;
        assert x != this;
        assert X <= T && (X > 0 || b1 < T) && (!LeadingZeroDivisor(xv) && X > 0 ==> b1 % X != 0);
        while c >= 0
          invariant Valid() && x.value == xv && (subtractions == 0 ==> value == b0 && c == 1)
          invariant negative == old(negative) && x.negative == old(x.negative)
          invariant subtractions > 0 ==>
                      Canonical(value) && Val(value) > 0 && Val(value) + Times(subtractions - 1, X) == b1 &&
                      (subtractions == 1 || Val(value) + X >= T)
          invariant subtractions > 0 ==> (c >= 0 <==> Val(value) >= T)
          invariant subtractions > 0 && c >= 0 ==> X > 0 && Val(value) > X
          decreases (if subtractions == 0 then 1 else 0), Val(value)
        {
          ghost var before := value;
          Subtractor(x);
          subtractions := subtractions + 1;
          DivideRound(before, xv, subtractions, b1);
          c := CompareValues(x);
          DivideGuard(value, xv, subtractions, b1);
        }
        DivideFinish(b0, xv, subtractions, value);
        remainder := value;
        NatToDecimalCorrect(subtractions);
        value := NatToDecimal(subtractions);
      } else if c == -1 {
        remainder := value;
        value := "0";
      } else {
        value := "1";
      }
      if negative == x.negative {
        negative := false;
      } else {
        negative := true;
      }
    }
  }

  /** The columns of `adder`, reversed and headed by the carry digit when there is one, spell the
      sum of the two operands. */
  lemma AdderDigits(bv: string, av: string, solution: string, overflow: int)
    requires AllDigits(bv) && AllDigits(av) && AllDigits(Reversed(solution)) && 0 <= overflow <= 1
    requires |solution| == Max(|av|, |bv|)
    requires Val(Reversed(solution)) + (if overflow == 1 then Pow10(|solution|) else 0) == Val(av) + Val(bv)
    ensures overflow == 0 ==> Reversed(solution) == SumDigits(bv, av)
    ensures overflow == 1 ==> "1" + Reversed(solution) == SumDigits(bv, av)
  {
    assert |Reversed(solution)| == Max(|bv|, |av|);
    SumOfColumns(bv, av, Reversed(solution), overflow);
  }

  /** The carry loop of `adder` over the two padded digit strings: the digits of the sum from the
      right, and the final carry. */
  method AddColumns(x: string, y: string) returns (solution: string, overflow: int)
    requires |x| == |y| && AllDigits(x) && AllDigits(y)
    ensures 0 <= overflow <= 1 && |solution| == |x| && AllDigits(solution) && AllDigits(Reversed(solution))
    ensures Val(Reversed(solution)) + (if overflow == 1 then Pow10(|solution|) else 0) == Val(x) + Val(y)
  {
    overflow := 0;
    solution := "";
    var i := |x| - 1;
    ghost var xs, ys := "", "";
    while i >= 0
      invariant -1 <= i < |x| && |solution| == |x| - 1 - i
      invariant xs == x[i + 1..] && ys == y[i + 1..]
      invariant 0 <= overflow <= 1
      invariant AllDigits(solution) && AllDigits(Reversed(solution)) && AllDigits(xs) && AllDigits(ys)
      invariant Val(Reversed(solution)) + (if overflow == 1 then Pow10(|solution|) else 0) == Val(xs) + Val(ys)
    {
      var xInt := Code(x[i]);
      var yInt := Code(y[i]);
      var digitSum := xInt + yInt + overflow;
      AddColumn(xs, ys, solution, overflow, x[i], y[i]);
      xs, ys := [x[i]] + xs, [y[i]] + ys;
      solution := solution + [DigitChar(digitSum % 10)];
      overflow := digitSum / 10;
      i := i - 1;
    }
    assert i == -1;
    assert xs == x && ys == y;
  }

  /** The zero-stripping loop of `subtractor`: drops '0's from the end of the column digits, which
      are leading zeros of the difference; the reading is non-zero so some digit remains. */
  method StripTrailingZeros(sb: string) returns (solution: string)
    requires AllDigits(sb) && AllDigits(Reversed(sb)) && Val(Reversed(sb)) > 0
    ensures AllDigits(solution) && AllDigits(Reversed(solution))
    ensures |solution| > 0 && solution[|solution| - 1] != '0'
    ensures Val(Reversed(solution)) == Val(Reversed(sb))
  {
    NonZeroNotEmpty(Reversed(sb));
    solution := sb;
    while solution[|solution| - 1] == '0'
      invariant AllDigits(solution) && AllDigits(Reversed(solution))
      invariant Val(Reversed(solution)) == Val(Reversed(sb)) && |solution| > 0
      decreases |solution|
    {
      StripTrailingZero(solution);
      solution := solution[..|solution| - 1];
      NonZeroNotEmpty(Reversed(solution));
    }
  }

  /** Column digits that do not end in '0' reverse to a canonical numeral. */
  lemma ReversedCanonical(solution: string)
    requires AllDigits(solution) && |solution| > 0 && solution[|solution| - 1] != '0'
    ensures Canonical(Reversed(solution))
  {
    ReversedAllDigits(solution);
    ReversedAt(solution, 0);
  }

  /** The borrow loop of `subtractor` over the padded subtrahend `x` and minuend `y`: the digits of
      the difference from the right, and the final borrow (0 or -1). */
  method BorrowColumns(x: string, y: string) returns (sb: string, overflow: int)
    requires |x| == |y| && AllDigits(x) && AllDigits(y)
    ensures -1 <= overflow <= 0 && |sb| == |x| && AllDigits(sb) && AllDigits(Reversed(sb))
    ensures Val(Reversed(sb)) - (if overflow == -1 then Pow10(|sb|) else 0) == Val(y) - Val(x)
  {
    overflow := 0;
    sb := "";
    var i := |x| - 1;
    ghost var xs, ys := "", "";
    while i >= 0
      invariant -1 <= i < |x| && |sb| == |x| - 1 - i
      invariant xs == x[i + 1..] && ys == y[i + 1..]
      invariant -1 <= overflow <= 0
      invariant AllDigits(sb) && AllDigits(Reversed(sb)) && AllDigits(xs) && AllDigits(ys)
      invariant Val(Reversed(sb)) - (if overflow == -1 then Pow10(|sb|) else 0) == Val(ys) - Val(xs)
    {
      var xInt := Code(x[i]);
      var yInt := Code(y[i]) + overflow;
      BorrowColumn(xs, ys, sb, overflow, x[i], y[i]);
      xs, ys := [x[i]] + xs, [y[i]] + ys;
      overflow := 0;
      if yInt < xInt {
        overflow := -1;
        yInt := yInt + 10;
      }
      sb := sb + [DigitChar(yInt - xInt)];
      i := i - 1;
    }
    assert i == -1;
    assert xs == x && ys == y;
  }

  /** When the loop of `Divide` stops after `s` subtractions at the canonical `v`, the quotient
      digits are those of `s` and the remainder is `v`. */
  lemma DivideFinish(bv: string, xv: string, s: nat, v: string)
    requires AllDigits(bv) && AllDigits(xv) && DivideSafe(bv, xv) && CompareDigits(bv, xv) == 1
    requires s >= 1 && Canonical(v) && Val(v) + Times(s - 1, Val(xv)) == BorrowValue(bv, xv)
    requires Val(v) < Threshold(xv) && (s == 1 || Val(v) + Val(xv) >= Threshold(xv))
    ensures DivideOutcome(bv, xv) == (NatToDecimal(s), v)
  {
    var b1, x, t := BorrowValue(bv, xv), Val(xv), Threshold(xv);
    assert DivideRounds(b1, x, t) == (s - 1, Val(v)) by {
      TimesIsProduct(s - 1, x);
      RoundsUnique(b1, x, t, s - 1, Val(v));
    }
    NatToDecimalOfVal(v);
  }

  /** Round `s` of the loop of `Divide` takes `x` once more from the running value: in all `s`
      subtractions have taken `b1`, and a later round starts from at least the threshold. */
  lemma DivideRound(before: string, xv: string, s: nat, b1: nat)
    requires AllDigits(before) && AllDigits(xv) && s >= 1
    requires s == 1 ==> BorrowValue(before, xv) == b1
    requires s > 1 ==> Val(before) + Times(s - 2, Val(xv)) == b1 && Val(before) >= Threshold(xv) &&
                       Val(before) > Val(xv)
    ensures Canonical(Difference(before, xv))
    ensures Val(Difference(before, xv)) + Times(s - 1, Val(xv)) == b1
    ensures s == 1 || Val(Difference(before, xv)) + Val(xv) >= Threshold(xv)
  {
    if s == 1 {
      DifferenceCorrect(before, xv);
    } else {
      DifferenceOf(before, xv);
      RoundArith(Val(before), Val(Difference(before, xv)), Val(xv), Times(s - 2, Val(xv)),
                 Times(s - 1, Val(xv)), b1, Threshold(xv));
    }
  }

  /** One more subtraction in `Divide`: the total taken away grows by `x` and the reading that
      was compared against the threshold is the new reading plus `x`. */
  lemma RoundArith(vb: nat, v: nat, x: nat, taken: nat, taken': nat, b1: nat, t: nat)
    requires v + x == vb && vb + taken == b1 && vb >= t && taken' == taken + x
    ensures v + taken' == b1 && v + x >= t
  {
  }

  /** `n` subtractions of `x` take away `Times(n, x)`; kept apart from `*` so that the loop of
      `Divide` stays linear. */
  function Times(n: nat, x: nat): nat
  {
    if n == 0 then 0 else Times(n - 1, x) + x
  }

  lemma {:induction false} TimesIsProduct(n: nat, x: nat)
    ensures Times(n, x) == n * x
  {
    if n > 0 {
      TimesIsProduct(n - 1, x);
      assert n * x == (n - 1) * x + x;
    }
  }

  /** The loop test of `Divide` on a canonical positive running value is a test against the
      threshold of the divisor. */
  lemma LoopGuard(v: string, xv: string)
    requires Canonical(v) && Val(v) > 0 && AllDigits(xv)
    ensures CompareDigits(v, xv) >= 0 <==> Val(v) >= Threshold(xv)
  {
    LeadingDigit(v);
    ValBound(v);
    if LeadingZeroDivisor(xv) {
      var n := |xv|;
      assert v[0] != '0';
      if |v| >= n {
        Pow10Monotone(n - 1, |v| - 1);
        if |v| == n {
          assert CompareDigits(v, xv) == 1;
        }
      } else {
        Pow10Monotone(|v|, n - 1);
      }
    } else if xv != "" {
      assert Canonical(xv);
      CompareDigitsVal(v, xv);
    }
  }

  /** The loop of `Divide` goes on past round `s` exactly while the running value `v` reaches the
      threshold, and then the next subtraction is safe and makes progress. */
  lemma DivideGuard(v: string, xv: string, s: nat, b1: nat)
    requires Canonical(v) && Val(v) > 0 && AllDigits(xv) && s >= 1 && Val(v) + Times(s - 1, Val(xv)) == b1
    requires Val(xv) > 0 || b1 < Threshold(xv)
    requires !LeadingZeroDivisor(xv) && Val(xv) > 0 ==> b1 % Val(xv) != 0
    ensures CompareDigits(v, xv) >= 0 <==> Val(v) >= Threshold(xv)
    ensures CompareDigits(v, xv) >= 0 ==> Val(xv) > 0 && Val(v) > Val(xv)
  {
    LoopGuard(v, xv);
    if CompareDigits(v, xv) >= 0 {
      GuardSafe(xv, Val(v), s, b1);
    }
  }

  /** While the loop of `Divide` goes on, the next subtraction meets different readings and makes
      the running value smaller. */
  lemma GuardSafe(xv: string, v: nat, s: nat, b1: nat)
    requires AllDigits(xv) && s >= 1 && v + Times(s - 1, Val(xv)) == b1 && v >= Threshold(xv)
    requires Val(xv) > 0 || b1 < Threshold(xv)
    requires !LeadingZeroDivisor(xv) && Val(xv) > 0 ==> b1 % Val(xv) != 0
    ensures Val(xv) > 0 && v > Val(xv)
  {
    var x := Val(xv);
    TimesIsProduct(s - 1, x);
    if x > 0 && !LeadingZeroDivisor(xv) && v == x {
      assert b1 == s * x by {
        assert s * x == (s - 1) * x + x;
      }
      DivModUnique(b1, x, s, 0);
    }
  }

  /** The pair of rounds and leftover is fixed by the way the loop stops. */
  lemma RoundsUnique(b1: nat, x: nat, t: nat, m: nat, v: nat)
    requires x <= t && (b1 < t || x > 0)
    requires v + m * x == b1 && v < t && (m == 0 || v + x >= t)
    ensures DivideRounds(b1, x, t) == (m, v)
  {
    if m > 0 {
      var k := m - 1;
      assert b1 - t == k * x + (v + x - t) && v + x - t < x by {
        assert m * x == k * x + x;
      }
      QuotientIs(b1 - t, x, k, v + x - t);
      assert (k + 1) * x == m * x;
    }
  }

  lemma QuotientIs(a: nat, x: nat, q: nat, r: nat)
    requires x > 0 && a == q * x + r && r < x
    ensures Quotient(a, x) == q
  {
    DivModUnique(a, x, q, r);
  }

  /** The character helpers the methods lean on. */
  lemma NonZeroNotEmpty(s: string)
    requires AllDigits(s) && Val(s) > 0
    ensures |s| > 0
  {
  }

  lemma NotMinus(digits: string)
    requires AllDigits(digits) && |digits| > 0
    ensures Parse(digits) == Some((digits, false))
  {
  }

  /** The equal-length loop of `compareValues` and `CompareTo`: the first differing digit decides. */
  method CompareRunes(b: string, x: string) returns (c: int)
    requires |b| == |x|
    ensures c == LexCompare(b, x)
  {
    var i := 0;
    while i < |b|
      invariant 0 <= i <= |b|
      invariant LexCompare(b, x) == LexCompare(b[i..], x[i..])
    {
      var bInt := Code(b[i]);
      var xInt := Code(x[i]);
      if bInt > xInt {
        return 1;
      }
      if bInt < xInt {
        return -1;
      }
      assert b[i..][1..] == b[i + 1..] && x[i..][1..] == x[i + 1..];
      i := i + 1;
    }
    return 0;
  }
}

/** What the operations of `BigInts` mean for the integers the objects stand for. */
module BigIntLaws {
  import opened Digits
  import opened Magnitude
  import opened Columns
  import opened BigInts

  // ---------------------------------------------------------------------------
  // Construction and printing

  /** A string `NewBigInt` accepts is printed back exactly by `ToString`. */
  lemma ToStringOfParsed(b: BigInt, v: string)
    requires |v| > 0 && Parse(v) == Some((b.value, b.negative))
    ensures b.ToString() == v
  {
  }

  /** Every non-empty string `ToString` prints is accepted by `NewBigInt` with the same fields. */
  lemma ParseOfToString(b: BigInt)
    requires b.Valid() && |b.ToString()| > 0
    ensures Parse(b.ToString()) == Some((b.value, b.negative))
  {
    var s := b.ToString();
    if b.negative {
      assert s[1..] == b.value;
    } else {
      assert s == b.value;
      assert s[0] != '-';
    }
  }

  // ---------------------------------------------------------------------------
  // Comparison

  /** `CompareTo` answers -1, 0 or 1, is antisymmetric and reflexive, and is 0 exactly on equal
      fields. */
  lemma SignedCompareProperties(bv: string, bn: bool, xv: string, xn: bool)
    ensures SignedCompare(bv, bn, xv, xn) in {-1, 0, 1}
    ensures SignedCompare(bv, bn, xv, xn) == -SignedCompare(xv, xn, bv, bn)
    ensures SignedCompare(bv, bn, bv, bn) == 0
    ensures SignedCompare(bv, bn, xv, xn) == 0 <==> bv == xv && bn == xn
  {
    CompareDigitsProperties(bv, xv);
    CompareDigitsProperties(bv, bv);
  }

  /** On canonical digits `CompareTo` is the sign of the difference of the integers, except that
      "0" and "-0" are told apart: the non-negative flag ranks above. */
  lemma SignedCompareMeaning(bv: string, bn: bool, xv: string, xn: bool)
    requires Canonical(bv) && Canonical(xv)
    ensures !(Val(bv) == 0 && Val(xv) == 0 && bn != xn) ==>
              SignedCompare(bv, bn, xv, xn) == Sign(IntOf(bv, bn) - IntOf(xv, xn))
    ensures Val(bv) == 0 && Val(xv) == 0 && bn != xn ==>
              SignedCompare(bv, bn, xv, xn) == (if bn then -1 else 1)
  {
    CompareDigitsVal(bv, xv);
  }

  // ---------------------------------------------------------------------------
  // Addition and subtraction

  /** `Add` on canonical operands: it never reaches a failing `subtractor`, the digits stay
      canonical, and the result is the sum, except when the receiver is the smaller magnitude, is
      negative and `x` non-negative: then the sign comes out wrong. Cancelling operands give "0". */
  lemma AddMeaning(bv: string, bn: bool, xv: string, xn: bool)
    requires Canonical(bv) && Canonical(xv)
    ensures AddSafe(bv, bn, xv, xn)
    ensures var r := AddCases(CompareDigits(bv, xv), bv, bn, xv, xn); Canonical(r.0)
    ensures var r := AddCases(CompareDigits(bv, xv), bv, bn, xv, xn);
            CompareDigits(bv, xv) == -1 && bn && !xn ==> IntOf(r.0, r.1) == -(IntOf(bv, bn) + IntOf(xv, xn))
    ensures var r := AddCases(CompareDigits(bv, xv), bv, bn, xv, xn);
            !(CompareDigits(bv, xv) == -1 && bn && !xn) ==> IntOf(r.0, r.1) == IntOf(bv, bn) + IntOf(xv, xn)
    ensures bn != xn && Val(bv) == Val(xv) ==> AddCases(CompareDigits(bv, xv), bv, bn, xv, xn) == ("0", false)
  {
    CompareDigitsVal(bv, xv);
    var c := CompareDigits(bv, xv);
    var r := AddCases(c, bv, bn, xv, xn);
    if bn == xn {
      SumOf(bv, xv);
      assert r == (SumDigits(bv, xv), bn);
    } else if c == -1 {
      assert Val(bv) < Val(xv);
      DifferenceOf(xv, bv);
      assert r == (Difference(xv, bv), true);
      assert IntOf(r.0, r.1) == Val(bv) as int - Val(xv);
    } else if c == 1 {
      assert Val(bv) > Val(xv);
      DifferenceOf(bv, xv);
      assert r == (Difference(bv, xv), bn);
    } else {
      assert Val(bv) == Val(xv) && r == ("0", false);
      assert Canonical("0");
    }
  }

  /** `Subtract` on canonical operands: never a failing `subtractor`, canonical digits, and always
      the difference. Equal operands give "0". */
  lemma SubtractMeaning(bv: string, bn: bool, xv: string, xn: bool)
    requires Canonical(bv) && Canonical(xv)
    ensures SubtractSafe(bv, bn, xv, xn)
    ensures var r := SubtractCases(CompareDigits(bv, xv), bv, bn, xv, xn);
            Canonical(r.0) && IntOf(r.0, r.1) == IntOf(bv, bn) - IntOf(xv, xn) &&
            (bn == xn && Val(bv) == Val(xv) ==> r == ("0", false))
  {
    CompareDigitsVal(bv, xv);
    var c := CompareDigits(bv, xv);
    var r := SubtractCases(c, bv, bn, xv, xn);
    if bn != xn {
      SumOf(bv, xv);
      assert r == (SumDigits(bv, xv), bn);
    } else if c == -1 {
      assert Val(bv) < Val(xv);
      DifferenceOf(xv, bv);
      assert r == (Difference(xv, bv), !bn);
    } else if c == 1 {
      assert Val(bv) > Val(xv);
      DifferenceOf(bv, xv);
      assert r == (Difference(bv, xv), bn);
    } else {
      assert Val(bv) == Val(xv) && r == ("0", false);
      assert Canonical("0");
    }
  }

  /** The fields `Add` would leave if the one sign in its table that disagrees with the sum were
      set as the case table describes it: a negative receiver of smaller magnitude than a
      non-negative `x` gives a non-negative result. */
  function IntendedAdd(bv: string, bn: bool, xv: string, xn: bool): (r: (string, bool))
    requires Canonical(bv) && Canonical(xv)
    ensures Canonical(r.0) && IntOf(r.0, r.1) == IntOf(bv, bn) + IntOf(xv, xn)
  {
    AddMeaning(bv, bn, xv, xn);
    var r := AddCases(CompareDigits(bv, xv), bv, bn, xv, xn);
    if CompareDigits(bv, xv) == -1 && bn && !xn then (r.0, false) else r
  }

  /** -1 + 2 comes out as -1 instead of 1; the intended sign gives 1. */
  lemma AddSignExample()
    ensures AddCases(CompareDigits("1", "2"), "1", true, "2", false) == ("1", true)
    ensures IntOf("1", true) + IntOf("2", false) == 1
    ensures IntendedAdd("1", true, "2", false) == ("1", false)
  {
    assert "1"[1..] == [] && "2"[1..] == [];
    assert CompareDigits("1", "2") == -1;
    assert BorrowValue("2", "1") == 1;
    assert NatToDecimal(1) == "1";
  }

  // ---------------------------------------------------------------------------
  // Multiplication

  /** On canonical non-zero operands `Multiply` leaves canonical digits reading the product of the
      integers. */
  lemma MultiplyMeaning(bv: string, bn: bool, xv: string, xn: bool)
    requires Canonical(bv) && Canonical(xv) && Val(bv) > 0 && Val(xv) > 0
    ensures var r := Accumulated(bv, xv, |xv|);
            Canonical(r) && IntOf(r, bn != xn) == IntOf(bv, bn) * IntOf(xv, xn)
  {
    var r := Accumulated(bv, xv, |xv|);
    ProductCorrect(bv, xv);
    SignedProduct(IntOf(bv, bn), IntOf(xv, xn), Val(bv), Val(xv), bn, xn, Val(r));
  }

  /** The sign rule of a product of sign-magnitude numbers. */
  lemma SignedProduct(x: int, y: int, a: nat, b: nat, an: bool, bn: bool, p: nat)
    requires x == (if an then -(a as int) else a) && y == (if bn then -(b as int) else b) && p == a * b
    ensures x * y == (if an != bn then -(p as int) else p)
  {
  }

  // ---------------------------------------------------------------------------
  // Division

  /** On canonical operands with a positive divisor, `Divide` is safe exactly when the receiver is
      not a proper multiple of the divisor above it. */
  lemma DivideSafeCanonical(bv: string, xv: string)
    requires Canonical(bv) && Canonical(xv) && Val(xv) > 0
    ensures DivideSafe(bv, xv) <==> Val(bv) <= Val(xv) || Val(bv) % Val(xv) != 0
  {
    CompareDigitsVal(bv, xv);
    var x := Val(xv);
    if Val(bv) > x {
      ShiftedRemainder(Val(bv), x);
    }
  }

  /** On canonical operands with a positive divisor, `Divide` leaves the integer quotient and
      returns the remainder, both canonical. */
  lemma DivideMeaning(bv: string, xv: string)
    requires Canonical(bv) && Canonical(xv) && Val(xv) > 0 && DivideSafe(bv, xv)
    ensures var r := DivideOutcome(bv, xv);
            Canonical(r.0) && Canonical(r.1) &&
            Val(r.0) == Val(bv) / Val(xv) && Val(r.1) == Val(bv) % Val(xv)
  {
    CompareDigitsVal(bv, xv);
    var b := Val(bv);
    var x := Val(xv);
    if b > x {
      assert !LeadingZeroDivisor(xv);
      var b1 := BorrowValue(bv, xv);
      assert b1 == b - x;
      var rounds := DivideRounds(b1, x, Threshold(xv));
      assert DivideOutcome(bv, xv) == (NatToDecimal(1 + rounds.0), NatToDecimal(rounds.1));
      RoundsDivMod(b, x, b1, rounds.0, rounds.1);
      NatToDecimalCorrect(1 + rounds.0);
      NatToDecimalCorrect(rounds.1);
    } else if b < x {
      DivModUnique(b, x, 0, b);
    } else {
      DivModUnique(b, x, 1, 0);
      assert Canonical("1") && Canonical("0");
    }
  }

  /** A leading zero defeats the length test of `compareValues`: "007" is ranked above "8", so
      7 + (-8) takes "8" from "007" with the flag of the receiver, the borrow wraps around, and
      the result is 999 where the integers sum to -1. */
  lemma LeadingZeroAddExample()
    ensures AllDigits("007") && AllDigits("8") && CompareDigits("007", "8") == 1
    ensures AddCases(CompareDigits("007", "8"), "007", false, "8", true) == ("999", false)
    ensures IntOf("007", false) + IntOf("8", true) == -1
  {
    LeadingZeroReadings();
    assert BorrowValue("007", "8") == 999 by {
      assert Max(|"007"|, |"8"|) == 3;
      assert Pow10(3) == 1000;
    }
    DifferenceCorrect("007", "8");
    CanonicalInjective(Difference("007", "8"), "999");
  }

  /** The readings of the numerals in the leading-zero example. */
  lemma LeadingZeroReadings()
    ensures AllDigits("007") && Val("007") == 7
    ensures AllDigits("8") && Val("8") == 8
    ensures Canonical("999") && Val("999") == 999
  {
    assert Val("0") == 0 by { assert "0"[..0] == ""; }
    ValSnoc("0", '0'); assert "0" + ['0'] == "00";
    ValSnoc("00", '7'); assert "00" + ['7'] == "007";
    assert Val("8") == 8 by { assert "8"[..0] == ""; }
    assert Val("9") == 9 by { assert "9"[..0] == ""; }
    ValSnoc("9", '9'); assert "9" + ['9'] == "99";
    ValSnoc("99", '9'); assert "99" + ['9'] == "999";
  }

  /** 1000000 / 1120 leaves 892 with remainder 960. */
  lemma DivideExample()
    ensures Canonical("1000000") && Canonical("1120") && DivideSafe("1000000", "1120")
    ensures DivideOutcome("1000000", "1120") == ("892", "960")
  {
    ExampleReadings();
    DivModUnique(1000000, 1120, 892, 960);
    DivideOutcomeOf("1000000", "1120", "892", "960");
  }

  /** The readings of the numerals in the division example. */
  lemma ExampleReadings()
    ensures AllDigits("1000000") && Val("1000000") == 1000000
    ensures AllDigits("1120") && Val("1120") == 1120
    ensures AllDigits("892") && Val("892") == 892
    ensures AllDigits("960") && Val("960") == 960
  {
    MillionReading();
    assert Val("1120") == 1120 by {
      assert Val("1") == 1 by { assert "1"[..0] == ""; }
      ValSnoc("1", '1'); assert "1" + ['1'] == "11";
      ValSnoc("11", '2'); assert "11" + ['2'] == "112";
      ValSnoc("112", '0'); assert "112" + ['0'] == "1120";
    }
    assert Val("892") == 892 by {
      assert Val("8") == 8 by { assert "8"[..0] == ""; }
      ValSnoc("8", '9'); assert "8" + ['9'] == "89";
      ValSnoc("89", '2'); assert "89" + ['2'] == "892";
    }
    assert Val("960") == 960 by {
      assert Val("9") == 9 by { assert "9"[..0] == ""; }
      ValSnoc("9", '6'); assert "9" + ['6'] == "96";
      ValSnoc("96", '0'); assert "96" + ['0'] == "960";
    }
  }

  /** The reading of the dividend in the division example. */
  lemma MillionReading()
    ensures AllDigits("1000000") && Val("1000000") == 1000000
  {
    assert Val("1") == 1 by { assert "1"[..0] == ""; }
    ValSnoc("1", '0'); assert "1" + ['0'] == "10";
    ValSnoc("10", '0'); assert "10" + ['0'] == "100";
    ValSnoc("100", '0'); assert "100" + ['0'] == "1000";
    ValSnoc("1000", '0'); assert "1000" + ['0'] == "10000";
    ValSnoc("10000", '0'); assert "10000" + ['0'] == "100000";
    ValSnoc("100000", '0'); assert "100000" + ['0'] == "1000000";
  }

  /** With a positive divisor the outcome of `Divide` is fixed by the readings of quotient and
      remainder. */
  lemma DivideOutcomeOf(bv: string, xv: string, q: string, r: string)
    requires Canonical(bv) && Canonical(xv) && Canonical(q) && Canonical(r) && Val(xv) > 0
    requires Val(bv) % Val(xv) != 0
    requires Val(q) == Val(bv) / Val(xv) && Val(r) == Val(bv) % Val(xv)
    ensures DivideSafe(bv, xv) && DivideOutcome(bv, xv) == (q, r)
  {
    DivideSafeCanonical(bv, xv);
    DivideMeaning(bv, xv);
    var o := DivideOutcome(bv, xv);
    CanonicalInjective(o.0, q);
    CanonicalInjective(o.1, r);
  }

  /** The rounds after the first subtraction give quotient and remainder of the whole dividend. */
  lemma RoundsDivMod(b: nat, x: nat, b1: nat, q: nat, r: nat)
    requires x > 0 && b == b1 + x && r + q * x == b1 && r < x
    ensures b / x == 1 + q && b % x == r
  {
    assert b == (q + 1) * x + r by {
      assert (q + 1) * x == q * x + x;
    }
    DivModUnique(b, x, q + 1, r);
  }

  /** Taking one divisor off a dividend above it keeps the remainder. */
  lemma ShiftedRemainder(b: nat, x: nat)
    requires x > 0 && b > x
    ensures (b - x) % x == b % x
  {
    var q := (b - x) / x;
    var r := (b - x) % x;
    assert b - x == q * x + r;
    assert b == (q + 1) * x + r by {
      assert (q + 1) * x == q * x + x;
    }
    DivModUnique(b, x, q + 1, r);
  }
}
