/** The earlier revision of the engine (main.go). Only the functions whose behaviour differs from
    the complete revision are here; they work on the same `BigInt` objects and call the same
    helpers (`checkDigits`, `equalLengths`, `Reverse`, `adder`, the borrow loop of `subtractor`,
    `multiplyByIntHelper` and the long-division loop). Each Go method becomes a method whose first
    parameter `b` is the receiver. */
module EarlyRevision {
  import opened Digits
  import opened Magnitude
  import opened Columns
  import opened BigInts

  // ---------------------------------------------------------------------------
  // Construction

  /** `newBigInt`: accepts exactly what `NewBigInt` accepts, but answers a null object with the
      error. */
  method NewBigInt(v: string) returns (b: BigInt?, err: Option<string>)
    requires |v| > 0
    ensures err.None? <==> Parse(v).Some?
    ensures err.None? ==> b != null && fresh(b) && b.Valid() && (b.value, b.negative) == Parse(v).value
    ensures err.Some? ==> b == null && err.value == "not a valid big int string"
  {
    if v[0] == '-' {
      var newV := v[1..];
      var ok := CheckDigits(newV);
      if !ok {
        b := null;
        err := Some("not a valid big int string");
        return;
      }
      b := new BigInt(newV, true);
      err := None;
      return;
    }
    var ok := CheckDigits(v);
    if !ok {
      b := null;
      err := Some("not a valid big int string");
      return;
    }
    b := new BigInt(v, false);
    err := None;
  }

  // ---------------------------------------------------------------------------
  // The magnitude comparison with exchanged digits

  /** `compareValues` as this revision has it: the longer string is larger, but among strings of
      equal length the digit of `x` is read where the receiver's is meant, so the order is reversed. */
  function SwappedCompare(bv: string, xv: string): int
  {
    if |bv| > |xv| then 1
    else if |bv| < |xv| then -1
    else LexCompare(xv, bv)
  }

  method CompareValues(b: BigInt, x: BigInt) returns (c: int)
    ensures c == SwappedCompare(b.value, x.value)
  {
    if |b.value| > |x.value| {
      return 1;
    }
    if |b.value| < |x.value| {
      return -1;
    }
    var thisRunes := b.value;
    var xRunes := x.value;
    c := CompareRunes(xRunes, thisRunes);
  }

  /** The exchanged comparison still answers -1, 0 or 1, is antisymmetric and is 0 exactly on equal
      strings; it agrees with the intended order across lengths and reverses it within a length. */
  lemma SwappedCompareProperties(bv: string, xv: string)
    ensures SwappedCompare(bv, xv) in {-1, 0, 1}
    ensures SwappedCompare(bv, xv) == -SwappedCompare(xv, bv)
    ensures SwappedCompare(bv, xv) == 0 <==> bv == xv
    ensures |bv| != |xv| ==> SwappedCompare(bv, xv) == CompareDigits(bv, xv)
    ensures |bv| == |xv| ==> SwappedCompare(bv, xv) == -CompareDigits(bv, xv)
  {
    CompareDigitsProperties(bv, xv);
    if |bv| == |xv| {
      LexCompareProperties(bv, xv);
      LexCompareProperties(xv, bv);
    }
  }

  /** On canonical strings: the sign of the difference across lengths, its opposite within one. */
  lemma SwappedCompareMeaning(bv: string, xv: string)
    requires Canonical(bv) && Canonical(xv)
    ensures |bv| != |xv| ==> SwappedCompare(bv, xv) == Sign(Val(bv) - Val(xv))
    ensures |bv| == |xv| ==> SwappedCompare(bv, xv) == Sign(Val(xv) - Val(bv))
  {
    SwappedCompareProperties(bv, xv);
    CompareDigitsVal(bv, xv);
  }

  /** "1" against "2" is reported as the larger. */
  lemma SwappedCompareExample()
    ensures SwappedCompare("1", "2") == 1 && Val("1") < Val("2")
  {
    assert "1"[1..] == [] && "2"[1..] == [];
  }

  // ---------------------------------------------------------------------------
  // Subtraction with guard branches

  /** The digits `subtractor` leaves: "0" for a string reported equal, a placeholder text for one
      reported smaller, and otherwise the result of the borrow loop, correct or wrapped around. */
  function SubtractorResult(bv: string, sv: string): string
    requires AllDigits(bv) && AllDigits(sv)
  {
    var c := SwappedCompare(bv, sv);
    if c == 0 then "0"
    else if c < 0 then "TODO implement negative values"
    else Difference(bv, sv)
  }

  /** `subtractor`; the borrow branch strips zeros until none is left when the readings are equal,
      which the caller must exclude. */
  method Subtractor(b: BigInt, subtrahend: BigInt)
    requires b.Valid() && subtrahend.Valid()
    requires SwappedCompare(b.value, subtrahend.value) == 1 ==> Val(b.value) != Val(subtrahend.value)
    modifies b
    ensures b.value == SubtractorResult(old(b.value), old(subtrahend.value)) && b.negative == old(b.negative)
  {
    SwappedCompareProperties(b.value, subtrahend.value);
    var c := CompareValues(b, subtrahend);
    if c == 0 {
      b.value := "0";
    } else if c < 0 {
      b.value := "TODO implement negative values";
    } else {
      b.Subtractor(subtrahend);
    }
  }

  /** On canonical strings the borrow branch is always safe. A longer minuend gives the difference;
      one of the same length is taken only when it is the smaller, and then the result wraps around
      to `10^L` plus the difference; a larger minuend of the same length, or a shorter one, gets the
      placeholder text. */
  lemma SubtractorMeaning(bv: string, sv: string)
    requires Canonical(bv) && Canonical(sv)
    ensures SwappedCompare(bv, sv) == 1 ==> Val(bv) != Val(sv)
    ensures bv == sv ==> SubtractorResult(bv, sv) == "0"
    ensures |bv| > |sv| ==>
              Canonical(SubtractorResult(bv, sv)) && Val(SubtractorResult(bv, sv)) == Val(bv) - Val(sv)
    ensures |bv| == |sv| && Val(bv) < Val(sv) ==>
              Canonical(SubtractorResult(bv, sv))
              && Val(SubtractorResult(bv, sv)) == Pow10(|bv|) + Val(bv) - Val(sv)
    ensures |bv| < |sv| || (|bv| == |sv| && Val(bv) > Val(sv)) ==>
              SubtractorResult(bv, sv) == "TODO implement negative values"
  {
    if |bv| > |sv| {
      SubtractorTakesLonger(bv, sv);
    } else if |bv| == |sv| && Val(bv) < Val(sv) {
      SubtractorWraps(bv, sv);
    } else if |bv| == |sv| && Val(bv) == Val(sv) {
      SubtractorEqual(bv, sv);
    } else {
      SubtractorRefuses(bv, sv);
    }
  }

  lemma SubtractorTakesLonger(bv: string, sv: string)
    requires Canonical(bv) && Canonical(sv) && |bv| > |sv|
    ensures Val(bv) > Val(sv)
    ensures Canonical(SubtractorResult(bv, sv)) && Val(SubtractorResult(bv, sv)) == Val(bv) - Val(sv)
  {
    SwappedCompareMeaning(bv, sv);
    SubtractorTakes(bv, sv);
    DifferenceOf(bv, sv);
  }

  lemma SubtractorWraps(bv: string, sv: string)
    requires Canonical(bv) && Canonical(sv) && |bv| == |sv| && Val(bv) < Val(sv)
    ensures Canonical(SubtractorResult(bv, sv))
    ensures Val(SubtractorResult(bv, sv)) == Pow10(|bv|) + Val(bv) - Val(sv)
  {
    SwappedWithin(bv, sv);
    SubtractorTakes(bv, sv);
    DifferenceWraps(bv, sv);
  }

  /** Within one length the exchanged comparison ranks the smaller reading first. */
  lemma SwappedWithin(bv: string, sv: string)
    requires Canonical(bv) && Canonical(sv) && |bv| == |sv| && Val(bv) < Val(sv)
    ensures SwappedCompare(bv, sv) == 1
  {
    SwappedCompareMeaning(bv, sv);
  }

  /** When the exchanged comparison answers 1 the borrow branch runs. */
  lemma SubtractorTakes(bv: string, sv: string)
    requires AllDigits(bv) && AllDigits(sv) && SwappedCompare(bv, sv) == 1
    ensures SubtractorResult(bv, sv) == Difference(bv, sv)
  {
  }

  lemma SubtractorEqual(bv: string, sv: string)
    requires Canonical(bv) && Canonical(sv) && |bv| == |sv| && Val(bv) == Val(sv)
    ensures bv == sv && SwappedCompare(bv, sv) == 0 && SubtractorResult(bv, sv) == "0"
  {
    CanonicalInjective(bv, sv);
    SwappedCompareProperties(bv, sv);
  }

  lemma SubtractorRefuses(bv: string, sv: string)
    requires Canonical(bv) && Canonical(sv) && (|bv| < |sv| || (|bv| == |sv| && Val(bv) > Val(sv)))
    ensures SubtractorResult(bv, sv) == "TODO implement negative values"
  {
    SwappedRefuses(bv, sv);
  }

  /** A shorter receiver, or a larger one of the same length, is ranked below the subtrahend. */
  lemma SwappedRefuses(bv: string, sv: string)
    requires Canonical(bv) && Canonical(sv) && (|bv| < |sv| || (|bv| == |sv| && Val(bv) > Val(sv)))
    ensures SwappedCompare(bv, sv) == -1
  {
    SwappedCompareMeaning(bv, sv);
  }

  // ---------------------------------------------------------------------------
  // The sign dispatch over the exchanged comparison

  /** `Add`: the twelve-way dispatch of the complete revision, on the exchanged comparison. */
  method Add(b: BigInt, x: BigInt)
    requires b.Valid() && x.Valid() && AddSafe(b.value, b.negative, x.value, x.negative)
    modifies b, x
    ensures (b.value, b.negative)
            == AddCases(SwappedCompare(old(b.value), old(x.value)), old(b.value), old(b.negative), old(x.value), old(x.negative))
    ensures x != b ==> x.value == old(x.value) && x.negative == old(x.negative)
  {
    SwappedCompareProperties(b.value, x.value);
    CompareDigitsProperties(b.value, x.value);
    var c := CompareValues(b, x);
    if c == -1 {
      if !b.negative && x.negative {
        var xValue := x.value;
        Subtractor(x, b);
        b.value := x.value;
        b.negative := true;
        x.value := xValue;
      } else if !b.negative && !x.negative {
        b.Adder(x);
        b.negative := false;
      } else if b.negative && x.negative {
        b.Adder(x);
        b.negative := true;
      } else {
        var xValue := x.value;
        Subtractor(x, b);
        b.value := x.value;
        b.negative := true;
        x.value := xValue;
      }
    } else if c == 1 {
      if !b.negative && x.negative {
        Subtractor(b, x);
        b.negative := false;
      } else if !b.negative && !x.negative {
        b.Adder(x);
        b.negative := false;
      } else if b.negative && x.negative {
        b.Adder(x);
        b.negative := true;
      } else {
        Subtractor(b, x);
        b.negative := true;
      }
    } else {
      if !b.negative && !x.negative {
        b.Adder(x);
        b.negative := false;
      } else if !b.negative && x.negative {
        b.value := "0";
        b.negative := false;
      } else if b.negative && !x.negative {
        b.value := "0";
        b.negative := false;
      } else {
        b.Adder(x);
        b.negative := true;
      }
    }
  }

  /** `Subtract`: the same dispatch with the roles of the signs exchanged. */
  method Subtract(b: BigInt, x: BigInt)
    requires b.Valid() && x.Valid() && SubtractSafe(b.value, b.negative, x.value, x.negative)
    modifies b, x
    ensures (b.value, b.negative)
            == SubtractCases(SwappedCompare(old(b.value), old(x.value)), old(b.value), old(b.negative), old(x.value), old(x.negative))
    ensures x != b ==> x.value == old(x.value) && x.negative == old(x.negative)
  {
    SwappedCompareProperties(b.value, x.value);
    CompareDigitsProperties(b.value, x.value);
    var c := CompareValues(b, x);
    if c == -1 {
      if !b.negative && x.negative {
        b.Adder(x);
        b.negative := false;
      } else if !b.negative && !x.negative {
        var xValue := x.value;
        Subtractor(x, b);
        b.value := x.value;
        x.value := xValue;
        b.negative := true;
      } else if b.negative && x.negative {
        var xValue := x.value;
        Subtractor(x, b);
        b.value := x.value;
        x.value := xValue;
        b.negative := false;
      } else {
        b.Adder(x);
        b.negative := true;
      }
    } else if c == 1 {
      if !b.negative && x.negative {
        b.Adder(x);
        b.negative := false;
      } else if !b.negative && !x.negative {
        Subtractor(b, x);
        b.negative := false;
      } else if b.negative && x.negative {
        Subtractor(b, x);
        b.negative := true;
      } else {
        b.Adder(x);
        b.negative := true;
      }
    } else {
      if !b.negative && !x.negative {
        b.value := "0";
        b.negative := false;
      } else if !b.negative && x.negative {
        b.Adder(x);
        b.negative := false;
      } else if b.negative && !x.negative {
        b.Adder(x);
        b.negative := true;
      } else {
        b.value := "0";
        b.negative := false;
      }
    }
  }

  /** Where the exchanged comparison cannot matter, the early `Add` does what the complete one does:
      operands of different lengths, or equal signs (every branch then adds). */
  lemma AddAgrees(bv: string, bn: bool, xv: string, xn: bool)
    requires AllDigits(bv) && AllDigits(xv)
    requires |bv| != |xv| || bn == xn
    ensures AddCases(SwappedCompare(bv, xv), bv, bn, xv, xn) == AddCases(CompareDigits(bv, xv), bv, bn, xv, xn)
  {
    SwappedCompareProperties(bv, xv);
    CompareDigitsProperties(bv, xv);
  }

  /** The same for `Subtract`: different lengths, or different signs. */
  lemma SubtractAgrees(bv: string, bn: bool, xv: string, xn: bool)
    requires AllDigits(bv) && AllDigits(xv)
    requires |bv| != |xv| || bn != xn
    ensures SubtractCases(SwappedCompare(bv, xv), bv, bn, xv, xn) == SubtractCases(CompareDigits(bv, xv), bv, bn, xv, xn)
  {
    SwappedCompareProperties(bv, xv);
    CompareDigitsProperties(bv, xv);
  }

  /** 2 + (-1) comes out as -9: the receiver is reported smaller, so 2 is taken from 1 with a borrow
      that wraps around, and the sign is set negative. */
  lemma AddExample()
    ensures AddCases(SwappedCompare("2", "1"), "2", false, "1", true) == ("9", true)
    ensures IntOf("2", false) + IntOf("1", true) == 1
  {
    assert "1"[1..] == [] && "2"[1..] == [];
    assert SwappedCompare("2", "1") == -1;
    assert Max(|"1"|, |"2"|) == 1;
    assert BorrowValue("1", "2") == 9;
  }

  // ---------------------------------------------------------------------------
  // Multiplication through Add

  /** The fields after `k` rounds of the early `Multiply`: the receiver starts at "0" with its own
      sign kept, and each partial product, a non-negative object, is added with the early `Add`. */
  function Products(number: string, multiplier: string, bn: bool, k: nat): (r: (string, bool))
    requires AllDigits(number) && AllDigits(multiplier) && k <= |multiplier|
    ensures AllDigits(r.0)
  {
    if k == 0 then ("0", bn)
    else
      var acc := Products(number, multiplier, bn, k - 1);
      var p := PartialProductDigits(number, multiplier, k);
      AddCases(SwappedCompare(acc.0, p), acc.0, acc.1, p, false)
  }

  /** Round `j` of the early `Multiply` does not reach a failing `subtractor`. */
  predicate RoundSafe(number: string, multiplier: string, bn: bool, j: nat)
    requires AllDigits(number) && AllDigits(multiplier) && 1 <= j <= |multiplier|
  {
    var acc := Products(number, multiplier, bn, j - 1);
    AddSafe(acc.0, acc.1, PartialProductDigits(number, multiplier, j), false)
  }

  /** No round of the early `Multiply` reaches a failing `subtractor`. */
  predicate MultiplySafe(number: string, multiplier: string, bn: bool)
    requires AllDigits(number) && AllDigits(multiplier)
  {
    forall j :: 1 <= j <= |multiplier| ==> RoundSafe(number, multiplier, bn, j)
  }

  /** `Multiply`: the receiver is reset to "0", keeping its sign, and every partial product is
      added to it with the early `Add`; the product sign is never set. */
  method Multiply(b: BigInt, x: BigInt)
    requires b.Valid() && x.Valid() && x != b
    requires b.value != "" || x.value == ""
    requires MultiplySafe(b.value, x.value, b.negative)
    modifies b
    ensures (b.value, b.negative) == Products(old(b.value), x.value, old(b.negative), |x.value|)
  {
    var xRunes := x.value;
    var number := b.value;
    ghost var bn := b.negative;
    b.value := "0";
    var i := 0;
    while i < |x.value|
      invariant 0 <= i <= |xRunes| && x.value == xRunes && AllDigits(number) && AllDigits(xRunes)
      invariant (b.value, b.negative) == Products(number, xRunes, bn, i)
      invariant number != "" || xRunes == ""
      invariant MultiplySafe(number, xRunes, bn)
    {
      ghost var acc := Products(number, xRunes, bn, i);
      assert AddSafe(acc.0, acc.1, PartialProductDigits(number, xRunes, i + 1), false) by {
        assert RoundSafe(number, xRunes, bn, i + 1);
      }
      AddPartialProduct(b, number, xRunes, i);
      assert (b.value, b.negative) == Products(number, xRunes, bn, i + 1);
      i := i + 1;
    }
    assert i == |xRunes|;
  }

  /** The body of the loop of the early `Multiply`: build the partial product for the digit `i`
      places from the right, wrap it with `newBigInt` and add it with the early `Add`. */
  method AddPartialProduct(b: BigInt, number: string, multiplier: string, i: nat)
    requires b.Valid() && AllDigits(number) && AllDigits(multiplier) && i < |multiplier| && number != ""
    requires AddSafe(b.value, b.negative, PartialProductDigits(number, multiplier, i + 1), false)
    modifies b
    ensures var p := PartialProductDigits(number, multiplier, i + 1);
            (b.value, b.negative) == AddCases(SwappedCompare(old(b.value), p), old(b.value), old(b.negative), p, false)
  {
    var d := Code(multiplier[|multiplier| - 1 - i]);
    var digits := MultiplyByIntHelper(d, number, i, 0, "");
    assert digits == PartialProductDigits(number, multiplier, i + 1) && Parse(digits) == Some((digits, false)) by {
      PartialProductText(number, multiplier, i + 1);
      NotMinus(digits);
    }
    var newB, err := NewBigInt(digits);
    Add(b, newB);
  }

  /** From a non-negative receiver every round adds, so the digits are those of the complete
      revision and the flag stays clear. */
  lemma {:induction false} NonNegativeProducts(number: string, multiplier: string, k: nat)
    requires AllDigits(number) && AllDigits(multiplier) && k <= |multiplier|
    ensures Products(number, multiplier, false, k) == (Accumulated(number, multiplier, k), false)
  {
    if k > 0 {
      NonNegativeProducts(number, multiplier, k - 1);
      NonNegativeRound(number, multiplier, k);
    }
  }

  /** One round of `NonNegativeProducts`. */
  lemma NonNegativeRound(number: string, multiplier: string, k: nat)
    requires AllDigits(number) && AllDigits(multiplier) && 1 <= k <= |multiplier|
    ensures Products(number, multiplier, false, k - 1) == (Accumulated(number, multiplier, k - 1), false) ==>
            Products(number, multiplier, false, k) == (Accumulated(number, multiplier, k), false)
  {
    var acc := Products(number, multiplier, false, k - 1);
    if acc == (Accumulated(number, multiplier, k - 1), false) {
      var p := PartialProductDigits(number, multiplier, k);
      ProductsStep(number, multiplier, false, k);
      AddCasesSameSign(SwappedCompare(acc.0, p), acc.0, false, p);
      AccumulatedStep(number, multiplier, k);
    }
  }

  /** Round `k` of the early `Multiply` adds the `k`-th partial product with the early `Add`. */
  lemma ProductsStep(number: string, multiplier: string, bn: bool, k: nat)
    requires AllDigits(number) && AllDigits(multiplier) && 1 <= k <= |multiplier|
    ensures var acc := Products(number, multiplier, bn, k - 1);
            var p := PartialProductDigits(number, multiplier, k);
            Products(number, multiplier, bn, k) == AddCases(SwappedCompare(acc.0, p), acc.0, acc.1, p, false)
  {
  }

  /** ... and no round of it can fail. */
  lemma NonNegativeSafe(number: string, multiplier: string)
    requires AllDigits(number) && AllDigits(multiplier)
    ensures MultiplySafe(number, multiplier, false)
  {
    forall j | 1 <= j <= |multiplier|
      ensures RoundSafe(number, multiplier, false, j)
    {
      NonNegativeProducts(number, multiplier, j - 1);
    }
  }

  /** A non-negative receiver times a negative `x` comes out non-negative: its reading is the
      product of the magnitudes, not the product of the integers. */
  lemma MultiplyDropsSign(number: string, multiplier: string)
    requires Canonical(number) && Canonical(multiplier) && Val(number) > 0 && Val(multiplier) > 0
    ensures var r := Products(number, multiplier, false, |multiplier|);
            Canonical(r.0) && !r.1 && IntOf(r.0, r.1) == Val(number) * Val(multiplier) &&
            IntOf(r.0, r.1) != IntOf(number, false) * IntOf(multiplier, true)
  {
    var r := Products(number, multiplier, false, |multiplier|);
    assert r == (Accumulated(number, multiplier, |multiplier|), false) by {
      NonNegativeProducts(number, multiplier, |multiplier|);
    }
    var v := Val(number) * Val(multiplier);
    assert Canonical(r.0) && Val(r.0) == v by {
      ProductCorrect(number, multiplier);
    }
    assert v >= 1 by {
      ProductAtLeast(Val(number), 1, Val(multiplier), 1);
    }
    assert IntOf(number, false) * IntOf(multiplier, true) == -v by {
      assert IntOf(number, false) == Val(number) && IntOf(multiplier, true) == -(Val(multiplier) as int);
      ProductNegated(IntOf(number, false), IntOf(multiplier, true), Val(number), Val(multiplier), v);
    }
  }

  /** -3 times 3 comes out as -1: the negative "0" the receiver starts from is reported larger
      than the partial product "9", which is then taken from it with a borrow that wraps around. */
  lemma MultiplyExample()
    ensures Products("3", "3", true, 1) == ("1", true)
  {
    assert "3"[..0] == [];
    assert PartialProductDigits("3", "3", 1) == "9" by {
      assert MultiplyByIntHelper(3, "3", 0, 0, "") == MultiplyByIntHelper(3, "", 0, 0, "9");
      assert Reversed("9") == "9";
    }
    assert "0"[1..] == [] && "9"[1..] == [];
    assert SwappedCompare("0", "9") == 1;
    assert Max(|"0"|, |"9"|) == 1;
    assert BorrowValue("0", "9") == 1;
  }

  lemma ProductNegated(x: int, y: int, a: nat, b: nat, p: nat)
    requires x == a && y == -(b as int) && p == a * b
    ensures x * y == -(p as int)
  {
  }

  // ---------------------------------------------------------------------------
  // Division by a machine integer

  /** `DivideByInt`: the same long division, returned as a string; the receiver is not changed. A
      zero divisor ends the process and a zero quotient makes the strip loop run off the end. */
  method DivideByInt(b: BigInt, divisor: int) returns (s: string)
    requires b.Valid() && divisor > 0 && Val(b.value) >= divisor
    ensures Canonical(s) && Val(s) == Val(b.value) / divisor
  {
    s := LongDivide(b.value, divisor);
  }
}
