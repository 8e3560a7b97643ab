/** The callbacks for ints. */
module ElementOps {
  import opened Text
  import opened Sorting

  /** Negation of an int where it wraps: INT_MIN is its own negative. */
  function Negated(i: int): (r: int)
    ensures IsInt(i) ==> IsInt(r)
  {
    if i == INT_MIN then INT_MIN else -i
  }

  /** How often n can be divided by ten, and one more; one for a negative n. */
  function Digits(n: int): nat {
    if n > 9 then Digits(n / 10) + 1 else 1
  }

  /** What `vanessa_length_int` computes where negation wraps; C leaves it undefined for INT_MIN. */
  function IntLength(i: int): nat {
    if i < 0 then 1 + Digits(Negated(i)) else Digits(i)
  }

  /** `vanessa_length_int`. */
  method LengthInt(i: int) returns (length: nat)
    requires IsInt(i)
    ensures length == IntLength(i)
  {
    length := 1;
    var rest := i;
    if rest < 0 {
      length := length + 1;
      rest := Negated(rest);
    }
    while rest > 9
      invariant length + Digits(rest) == IntLength(i) + 1
    {
      rest := rest / 10;
      length := length + 1;
    }
  }

  lemma {:induction false} DigitsAre(n: nat)
    ensures |DecimalNat(n)| == Digits(n)
  {
    if n > 9 {
      DigitsAre(n / 10);
    }
  }

  /** The computed length is that of the printed int exactly when the int is not INT_MIN, whose eleven characters
      it takes for two. */
  lemma IntLengthIs(i: int)
    requires IsInt(i)
    ensures IntLength(i) == |Decimal(i)| <==> i != INT_MIN
    ensures i == INT_MIN ==> IntLength(i) == 2 && |Decimal(i)| == 11 && Decimal(i) == "-2147483648"
  {
    if i == INT_MIN {
      PrintedIntMin();
    } else {
      DigitsAre(if i < 0 then -i else i);
    }
  }

  lemma IntLengthPositive(i: int)
    ensures IntLength(i) > 0
  {
  }

  lemma PrintedIntMin()
    ensures Decimal(INT_MIN) == "-2147483648"
  {
    TwoToThe31();
    hide DecimalNat;
    assert "-" + "2147483648" == "-2147483648";
  }

  lemma TwoToThe31()
    ensures DecimalNat(2147483648) == "2147483648"
  {
    assert DecimalNat(2) == "2";
    assert DecimalNat(21) == "21";
    assert DecimalNat(214) == "214";
    assert DecimalNat(2147) == "2147";
    assert DecimalNat(21474) == "21474";
    assert DecimalNat(214748) == "214748";
    assert DecimalNat(2147483) == "2147483";
    assert DecimalNat(21474836) == "21474836";
    assert DecimalNat(214748364) == "214748364";
    assert DecimalNat(2147483648) == "2147483648";
  }

  /** Every digit. */
  lemma PrintedDigits()
    ensures Decimal(1234567890) == "1234567890" && Decimal(-90) == "-90"
  {
    assert DecimalNat(1) == "1";
    assert DecimalNat(12) == "12";
    assert DecimalNat(123) == "123";
    assert DecimalNat(1234) == "1234";
    assert DecimalNat(12345) == "12345";
    assert DecimalNat(123456) == "123456";
    assert DecimalNat(1234567) == "1234567";
    assert DecimalNat(12345678) == "12345678";
    assert DecimalNat(123456789) == "123456789";
    assert DecimalNat(1234567890) == "1234567890";
    assert DecimalNat(9) == "9";
    assert DecimalNat(90) == "90";
  }

  /** The int a subtraction of ints leaves where it wraps. */
  function Wrapped(x: int): int {
    if x > INT_MAX then x - 0x1_0000_0000 else if x < INT_MIN then x + 0x1_0000_0000 else x
  }

  /** `vanessa_match_int`, with subtraction wrapping. */
  function MatchInt(a: int, b: int): int {
    Wrapped(if a < b then a - b else b - a)
  }

  /** It tells equal from unequal, and is not positive as long as the subtraction does not overflow, so it is no
      order to sort by. */
  lemma MatchIntIsNoOrder(a: int, b: int)
    requires IsInt(a) && IsInt(b)
    ensures MatchInt(a, b) == 0 <==> a == b
    ensures MatchInt(a, b) <= 0 <==> INT_MIN <= a - b <= 0x8000_0000
    ensures !TotalPreorder(MatchInt)
  {
    if TotalPreorder(MatchInt) {
      Flip(MatchInt, 1, 2);
      assert false;
    }
  }
}
