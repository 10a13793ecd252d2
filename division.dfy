/** Long division with a binary search per quotient digit, and the remainder built from it. */
module Division {
  import opened Magnitude
  import opened Representation
  import opened Comparison
  import opened Additive
  import opened Multiplicative
  import opened Text

  /** Integer division rounding toward zero, as C++ defines it for built-in integers. */
  function TruncDiv(x: int, y: int): int
    requires y != 0
  {
    var q := Abs(x) / Abs(y);
    if (x < 0) != (y < 0) then -q else q
  }

  /** The remainder that goes with TruncDiv: it takes the sign of the dividend. */
  function TruncRem(x: int, y: int): int
    requires y != 0
  {
    var r := Abs(x) % Abs(y);
    if x < 0 then -r else r
  }

  lemma ProductSign(k: int, d: int)
    requires d > 0
    ensures k >= 1 ==> k * d >= d
    ensures k <= -1 ==> k * d <= -d
  {
    if k >= 1 { MulAtLeast(k, d); }
    if k <= -1 {
      MulAtLeast(-k, d);
      assert (-k) * d == -(k * d);
    }
  }

  /** A quotient and remainder with 0 <= r < d are the Euclidean ones. */
  lemma DivUnique(n: int, q: int, d: int, r: int)
    requires d > 0 && n == q * d + r && 0 <= r < d
    ensures q == n / d && r == n % d
  {
    var q0, r0 := n / d, n % d;
    assert n == q0 * d + r0 && 0 <= r0 < d;
    assert (q - q0) * d == r0 - r;
    ProductSign(q - q0, d);
  }

  lemma NegateProduct(q: int, y: int)
    ensures (-q) * y == -(q * y) && q * (-y) == -(q * y) && (-q) * (-y) == q * y
  {}

  lemma TruncIdentity(x: int, y: int)
    requires y != 0
    ensures TruncDiv(x, y) * y + TruncRem(x, y) == x
  {
    var ax: int, ay: int := Abs(x), Abs(y);
    var q: int, r: int := ax / ay, ax % ay;
    assert ax == q * ay + r;
    NegateProduct(q, ay);
    if x < 0 && y < 0 {
      assert TruncDiv(x, y) * y == q * (-ay);
    } else if x < 0 {
      assert TruncDiv(x, y) * y == (-q) * ay;
    } else if y < 0 {
      assert TruncDiv(x, y) * y == (-q) * (-ay);
    }
  }

  lemma TruncRemBound(x: int, y: int)
    requires y != 0
    ensures Abs(TruncRem(x, y)) < Abs(y)
    ensures TruncRem(x, y) == 0 || (TruncRem(x, y) < 0 <==> x < 0)
  {
    var r := Abs(x) % Abs(y);
    assert 0 <= r < Abs(y);
  }

  lemma TruncDivBound(x: int, y: int)
    requires y != 0
    ensures Abs(TruncDiv(x, y)) * Abs(y) <= Abs(x)
  {
    var ax: int, ay: int := Abs(x), Abs(y);
    var q: int, r: int := ax / ay, ax % ay;
    assert ax == q * ay + r && 0 <= r;
    QuotientBelow(Abs(TruncDiv(x, y)), ay, ax, q, r);
  }

  lemma QuotientBelow(t: int, ay: int, ax: int, q: int, r: int)
    requires t == q && ax == q * ay + r && r >= 0
    ensures t * ay <= ax
  {}

  /** TruncDiv and TruncRem split x as quotient * y + remainder, the remainder smaller than y and signed like x. */
  lemma TruncDivRem(x: int, y: int)
    requires y != 0
    ensures TruncDiv(x, y) * y + TruncRem(x, y) == x
    ensures Abs(TruncRem(x, y)) < Abs(y)
    ensures TruncRem(x, y) == 0 || (TruncRem(x, y) < 0 <==> x < 0)
    ensures Abs(TruncDiv(x, y)) * Abs(y) <= Abs(x)
  {
    TruncIdentity(x, y);
    TruncRemBound(x, y);
    TruncDivBound(x, y);
  }

  lemma NinesStep(n: nat)
    requires n > 0
    ensures seq(n, _ => 9)[1..] == seq(n - 1, _ => 9)
  {}

  /** A vector of n nines denotes 10^n - 1. */
  lemma {:induction false} MagNines(n: nat)
    ensures Mag(seq(n, _ => 9)) == Pow10(n) - 1
  {
    if n > 0 {
      NinesStep(n);
      MagNines(n - 1);
    }
  }

  /** Digit y times the divisor magnitude d fits under the running remainder c. */
  predicate Fits(d: int, c: int, y: int) { d * y <= c }

  /** A digit below one that fits fits too. */
  lemma FitsBelow(d: int, c: int, y: int, z: int)
    requires d >= 0
    ensures y <= z && Fits(d, c, z) ==> Fits(d, c, y)
  {
    if y <= z {
      MulNonDecreasing(d, y, z);
    }
  }

  /** One probe of the binary search: divisor * BigInteger(m) <= current. */
  method ProbeDigit(divisor: BigInteger, current: BigInteger, m: int) returns (fits: bool)
    requires 0 <= m <= 9
    requires !divisor.isNegative
    requires !current.isNegative && Normal(current.digits)
    ensures fits <==> Fits(Mag(divisor.digits), Mag(current.digits), m)
  {
    var k := FromInt(m);
    var t := Multiply(divisor, k);
    assert Mag(k.digits) == m;
    LeNonNegative(t, current);
    fits := Le(t, current);
  }

  /**
   * The inner binary search over 0..9: the largest m with divisor * m <= current,
   * where the comparison is operator<= on the product.
   */
  method SearchDigit(divisor: BigInteger, current: BigInteger) returns (x: int)
    requires !divisor.isNegative
    requires !current.isNegative && Normal(current.digits)
    ensures 0 <= x <= 9
    ensures Mag(divisor.digits) * x <= Mag(current.digits)
    ensures x == 9 || Mag(current.digits) < Mag(divisor.digits) * (x + 1)
    ensures forall y | 0 <= y <= 9 && Fits(Mag(divisor.digits), Mag(current.digits), y) :: y <= x
  {
    var d, c := Mag(divisor.digits), Mag(current.digits);
    x := 0;
    var l: int, r: int := 0, 9;
    while l <= r
      invariant 0 <= l <= r + 1 <= 10
      invariant x == if l == 0 then 0 else l - 1
      invariant l == 0 || Fits(d, c, l - 1)
      invariant r == 9 || !Fits(d, c, r + 1)
      decreases r - l + 1
    {
      var m := (l + r) / 2;
      var fits := ProbeDigit(divisor, current, m);
      if fits {
        x := m;
        l := m + 1;
      } else {
        r := m - 1;
      }
    }
    assert Fits(d, c, x);
    assert x == 9 || !Fits(d, c, x + 1);
    forall y | 0 <= y <= 9 && Fits(d, c, y) ensures y <= x {
      FitsBelow(d, c, x + 1, y);
    }
  }

  /** One quotient digit keeps dividend-so-far = quotient-so-far * d + current. */
  lemma DivStep(dv: int, tailQuot: int, d: int, c: int, x: int, c1: int, c2: int, whole: int, tailWhole: int)
    requires tailWhole == tailQuot * d + c
    requires whole == dv + 10 * tailWhole
    requires c1 == dv + 10 * c
    requires c2 == c1 - d * x
    ensures whole == (x + 10 * tailQuot) * d + c2
  {
    assert (x + 10 * tailQuot) * d == x * d + 10 * (tailQuot * d);
  }

  /** Prepending quotient digit x keeps dividend[i..] = quotient * d + remainder. */
  lemma DivisionInvariant(dividend: seq<Digit>, i: nat, tail: seq<Digit>, x: Digit, d: nat, c: nat, c2: nat)
    requires i < |dividend|
    requires Mag(dividend[i + 1..]) == Mag(tail) * d + c
    requires dividend[i] + 10 * c == d * x + c2
    ensures Mag(dividend[i..]) == Mag([x] + tail) * d + c2
  {
    assert dividend[i..] == [dividend[i]] + dividend[i + 1..];
    assert ([x] + tail)[1..] == tail;
    DivStep(dividend[i], Mag(tail), d, c, x, dividend[i] + 10 * c, c2, Mag(dividend[i..]), Mag(dividend[i + 1..]));
  }

  /** The remainder that one quotient digit leaves stays below the divisor. */
  lemma DivBound(dv: Digit, d: int, c: int, x: int, c1: int)
    requires 0 <= c < d && c1 == dv + 10 * c
    requires d * x <= c1 && (x == 9 || c1 < d * (x + 1))
    ensures 0 <= c1 - d * x < d
  {
    if x == 9 {
      assert c <= d - 1;
      assert 10 * c <= 10 * d - 10;
    } else {
      assert d * (x + 1) == d * x + d;
    }
  }

  /**
   * One pass of the digit loop of operator/: digit dv is put below the running
   * remainder, which is normalized, the quotient digit x is found by
   * SearchDigit and divisor * x is subtracted.
   */
  method DivisionStep(divisor: BigInteger, current: BigInteger, dv: Digit) returns (x: Digit, next: BigInteger)
    requires !divisor.isNegative
    requires !current.isNegative && Trimmed(current.digits)
    requires Mag(divisor.digits) > 0 ==> Mag(current.digits) < Mag(divisor.digits)
    ensures !next.isNegative && Trimmed(next.digits)
    ensures dv + 10 * Mag(current.digits) == Mag(divisor.digits) * x + Mag(next.digits)
    ensures Mag(divisor.digits) > 0 ==> Mag(next.digits) < Mag(divisor.digits)
    ensures Mag(divisor.digits) == 0 ==> x == 9
  {
    var d, c := Mag(divisor.digits), Mag(current.digits);
    var shifted := RemoveLeadingZeros(current.(digits := [dv] + current.digits));
    var c1 := Mag(shifted.digits);
    assert c1 == dv + 10 * c;
    var m := SearchDigit(divisor, shifted);
    x := m;
    var k := FromInt(x);
    var p := Multiply(divisor, k);
    assert Mag(k.digits) == x;
    if c1 == d * x {
      NormalUnique(shifted.digits, p.digits);
    }
    next := Sub(shifted, p);
    if d > 0 {
      DivBound(dv, d, c, x, c1);
    }
  }

  /**
   * The digit loop of operator/ on the two magnitudes, from the most
   * significant dividend digit down. For a zero divisor every comparison
   * succeeds and every quotient digit is 9.
   */
  method LongDivision(dividend: seq<Digit>, divisor: seq<Digit>) returns (q: seq<Digit>)
    ensures |q| == |dividend|
    ensures Mag(divisor) > 0 ==> Mag(q) == Mag(dividend) / Mag(divisor)
    ensures Mag(divisor) == 0 ==> q == seq(|dividend|, _ => 9)
  {
    var n := |dividend|;
    var d := Mag(divisor);
    var positive := BigInteger(false, divisor);
    var buf := new Digit[n](_ => 0);
    var current := Empty;
    var i := n;
    assert dividend[n..] == [] && buf[n..] == [];
    while i > 0
      invariant 0 <= i <= n
      invariant !current.isNegative && Trimmed(current.digits)
      invariant Mag(dividend[i..]) == Mag(buf[i..]) * d + Mag(current.digits)
      invariant d > 0 ==> Mag(current.digits) < d
      invariant d == 0 ==> forall k | i <= k < n :: buf[k] == 9
    {
      i := i - 1;
      var c := Mag(current.digits);
      var tail := buf[i + 1..];
      var x;
      x, current := DivisionStep(positive, current, dividend[i]);
      buf[i] := x;
      assert buf[i..] == [x] + tail;
      DivisionInvariant(dividend, i, tail, x, d, c, Mag(current.digits));
    }
    q := buf[..];
    assert dividend[0..] == dividend && buf[0..] == q;
    if d > 0 {
      DivUnique(Mag(dividend), Mag(q), d, Mag(current.digits));
    } else {
      assert q == seq(n, _ => 9);
    }
  }

  /** A vector of nines is already normalized. */
  lemma NinesTrimmed(n: nat)
    ensures Trimmed(seq(n, _ => 9))
  {}

  /**
   * The sign of the quotient is a XOR b and its magnitude |a| / |b|, so its
   * value is the C++ quotient, rounded toward zero.
   */
  lemma QuotientValue(a: BigInteger, b: BigInteger, q: BigInteger)
    requires Mag(b.digits) > 0
    requires Mag(q.digits) == Mag(a.digits) / Mag(b.digits)
    requires q.isNegative == (a.isNegative != b.isNegative)
    ensures Value(q) == TruncDiv(Value(a), Value(b))
  {
    var ma: int, mb: int, mq: int := Mag(a.digits), Mag(b.digits), Mag(q.digits);
    assert Value(a) == (if a.isNegative then -ma else ma);
    assert Value(b) == (if b.isNegative then -mb else mb);
    assert Value(q) == (if q.isNegative then -mq else mq);
    SignedQuotient(a.isNegative, b.isNegative, ma, mb, mq, Value(a), Value(b), Value(q));
  }

  lemma SignedQuotient(na: bool, nb: bool, ma: int, mb: int, mq: int, va: int, vb: int, vq: int)
    requires mb > 0 && ma >= 0 && mq == ma / mb
    requires va == (if na then -ma else ma) && vb == (if nb then -mb else mb)
    requires vq == (if na != nb then -mq else mq)
    ensures vb != 0 && vq == TruncDiv(va, vb)
  {
    if ma == 0 {
      assert mq == 0;
    }
  }

  /**
   * operator/ as written: it throws only for a divisor == BigInteger(0), that is
   * exactly the digits [0] without the negative flag. Any other zero divisor
   * (a negatively-flagged [0], an empty vector) gets through, and the quotient
   * is then a nine for every dividend digit.
   */
  method Divide(a: BigInteger, b: BigInteger) returns (res: Result<BigInteger>)
    ensures res.Failure? <==> b == BigInteger(false, [0])
    ensures res.Failure? ==> res.error == "Division by zero"
    ensures res.Success? ==> res.value.isNegative == (a.isNegative != b.isNegative)
    ensures res.Success? ==> Trimmed(res.value.digits) && |res.value.digits| <= |a.digits|
    ensures res.Success? ==> (res.value.digits == [] <==> a.digits == [])
    ensures res.Success? && Mag(b.digits) > 0 ==>
      Mag(res.value.digits) == Mag(a.digits) / Mag(b.digits) &&
      Value(res.value) == TruncDiv(Value(a), Value(b))
    ensures res.Success? && Mag(b.digits) == 0 ==>
      res.value.digits == seq(|a.digits|, _ => 9) && Mag(res.value.digits) == Pow10(|a.digits|) - 1
  {
    var zero := FromInt(0);
    assert zero.digits == [0] by { NormalZero(zero.digits); }
    if Eq(b, zero) {
      return Failure("Division by zero");
    }
    var q := Quotient(a, b);
    res := Success(q);
  }

  /**
   * operator/ with the check it evidently intends: every divisor of magnitude
   * zero is refused, so a successful quotient is always the C++ quotient.
   */
  method DivideChecked(a: BigInteger, b: BigInteger) returns (res: Result<BigInteger>)
    ensures res.Failure? <==> Mag(b.digits) == 0
    ensures res.Failure? ==> res.error == "Division by zero"
    ensures res.Success? ==> res.value.isNegative == (a.isNegative != b.isNegative)
    ensures res.Success? ==> Trimmed(res.value.digits) && |res.value.digits| <= |a.digits|
    ensures res.Success? ==> Value(res.value) == TruncDiv(Value(a), Value(b))
  {
    MagZeroIff(b.digits);
    if AllZero(b.digits) {
      return Failure("Division by zero");
    }
    var q := Quotient(a, b);
    res := Success(q);
  }

  /** operator/ past its divisor check: the digit loop on both magnitudes, normalization, then the sign. */
  method Quotient(a: BigInteger, b: BigInteger) returns (q: BigInteger)
    ensures q.isNegative == (a.isNegative != b.isNegative)
    ensures Trimmed(q.digits) && |q.digits| <= |a.digits|
    ensures q.digits == [] <==> a.digits == []
    ensures Mag(b.digits) > 0 ==>
      Mag(q.digits) == Mag(a.digits) / Mag(b.digits) && Value(q) == TruncDiv(Value(a), Value(b))
    ensures Mag(b.digits) == 0 ==>
      q.digits == seq(|a.digits|, _ => 9) && Mag(q.digits) == Pow10(|a.digits|) - 1
  {
    var digits := LongDivision(a.digits, b.digits);
    q := RemoveLeadingZeros(BigInteger(false, digits));
    q := q.(isNegative := a.isNegative != b.isNegative);
    if Mag(b.digits) > 0 {
      QuotientValue(a, b, q);
    } else {
      var n := |a.digits|;
      NinesTrimmed(n);
      MagNines(n);
    }
  }

  /** Multiplying back the TruncDiv quotient and subtracting leaves the value TruncRem. */
  lemma RemainderValue(x: int, y: int, q: int, p: int, r: int)
    requires y != 0 && q == TruncDiv(x, y) && p == q * y && r == x - p
    ensures r == TruncRem(x, y)
  {
    TruncIdentity(x, y);
  }

  /**
   * The flag of a zero remainder a - (a/b)·b: the product (a/b)·b carries a's
   * flag, so Sub either adds two magnitudes of a's flag or cancels two equal
   * normal vectors and keeps the first operand's flag.
   */
  lemma ZeroRemainderFlag(a: BigInteger, p: BigInteger, r: BigInteger)
    requires Trimmed(a.digits) && Normal(p.digits) && p.isNegative == a.isNegative
    requires Trimmed(r.digits) && r.digits != []
    requires Value(r) == Value(a) - Value(p) && Value(r) == 0
    requires a.isNegative == Negate(p).isNegative ==> r.isNegative == a.isNegative
    requires a.isNegative != Negate(p).isNegative && Mag(r.digits) == 0 ==>
      r.isNegative == (if |a.digits| >= |p.digits| then a.isNegative else Negate(p).isNegative)
    ensures r == BigInteger(a.isNegative, [0])
  {
    NormalZero(r.digits);
    assert Mag(a.digits) == Mag(p.digits);
    if a.digits != [] {
      NormalUnique(a.digits, p.digits);
    } else {
      NormalZero(p.digits);
    }
  }

  /**
   * operator% as written: this - (this / other) * other. It throws exactly
   * when operator/ throws; for a divisor of magnitude zero that gets through,
   * the quotient of nines is multiplied by zero and the dividend's value comes
   * back. A zero remainder of a non-zero divisor is [0] with the dividend's
   * flag, so -6 % 3 is a negatively-flagged zero.
   */
  method Mod(a: BigInteger, b: BigInteger) returns (res: Result<BigInteger>)
    requires Trimmed(a.digits)
    ensures res.Failure? <==> b == BigInteger(false, [0])
    ensures res.Failure? ==> res.error == "Division by zero"
    ensures res.Success? ==> Trimmed(res.value.digits)
    ensures res.Success? && Mag(b.digits) > 0 ==>
      Value(res.value) == TruncRem(Value(a), Value(b)) &&
      Abs(Value(res.value)) < Mag(b.digits) &&
      (Value(res.value) == 0 || (Value(res.value) < 0 <==> Value(a) < 0))
    ensures res.Success? && Mag(b.digits) > 0 && Value(res.value) == 0 ==>
      res.value == BigInteger(a.isNegative, [0])
    ensures res.Success? && Mag(b.digits) == 0 ==> Value(res.value) == Value(a)
  {
    var quotient := Divide(a, b);
    if quotient.Failure? {
      return Failure(quotient.error);
    }
    var p := Multiply(quotient.value, b);
    var r := Sub(a, p);
    if Mag(b.digits) > 0 {
      RemainderValue(Value(a), Value(b), Value(quotient.value), Value(p), Value(r));
      TruncRemBound(Value(a), Value(b));
      if Value(r) == 0 {
        ZeroRemainderFlag(a, p, r);
      }
    }
    res := Success(r);
  }

  /** operator% on top of DivideChecked: it fails for every zero divisor and otherwise yields TruncRem. */
  method ModChecked(a: BigInteger, b: BigInteger) returns (res: Result<BigInteger>)
    requires Trimmed(a.digits)
    ensures res.Failure? <==> Mag(b.digits) == 0
    ensures res.Failure? ==> res.error == "Division by zero"
    ensures res.Success? ==> Trimmed(res.value.digits)
    ensures res.Success? ==>
      Value(res.value) == TruncRem(Value(a), Value(b)) &&
      Abs(Value(res.value)) < Mag(b.digits) &&
      (Value(res.value) == 0 || (Value(res.value) < 0 <==> Value(a) < 0))
    ensures res.Success? && Value(res.value) == 0 ==> res.value == BigInteger(a.isNegative, [0])
  {
    var quotient := DivideChecked(a, b);
    if quotient.Failure? {
      return Failure(quotient.error);
    }
    var p := Multiply(quotient.value, b);
    var r := Sub(a, p);
    RemainderValue(Value(a), Value(b), Value(quotient.value), Value(p), Value(r));
    TruncRemBound(Value(a), Value(b));
    if Value(r) == 0 {
      ZeroRemainderFlag(a, p, r);
    }
    res := Success(r);
  }

  /** The negatively-flagged zero that BigInteger(-1) * BigInteger(0) produces, and the value 7. */
  method SevenAndNegativeZero() returns (seven: BigInteger, negZero: BigInteger)
    ensures seven == BigInteger(false, [7])
    ensures negZero == BigInteger(true, [0])
  {
    seven := FromInt(7);
    NormalUnique(seven.digits, [7]);
    var minusOne := FromInt(-1);
    var zero := FromInt(0);
    negZero := Multiply(minusOne, zero);
    NormalZero(negZero.digits);
  }

  /** 7 / (-1 * 0) does not throw: it yields -9. */
  method DivideByNegativeZero() returns (res: Result<BigInteger>)
    ensures res == Success(BigInteger(true, [9]))
  {
    var seven, negZero := SevenAndNegativeZero();
    res := Divide(seven, negZero);
    assert seq(1, _ => 9) == [9];
  }

  /** 7 / BigInteger("") does not throw either: the empty digit vector is not == BigInteger(0), and the quotient is 9. */
  method DivideByEmpty() returns (res: Result<BigInteger>)
    ensures res == Success(BigInteger(false, [9]))
  {
    var seven, _ := SevenAndNegativeZero();
    var empty := Parse("");
    assert DigitChars(Unsigned("")) == [];
    res := Divide(seven, empty);
    assert seq(1, _ => 9) == [9];
  }

  /** 7 % (-1 * 0) does not throw: it yields 7. */
  method ModByNegativeZero() returns (res: Result<BigInteger>)
    ensures res == Success(BigInteger(false, [7]))
  {
    var seven, negZero := SevenAndNegativeZero();
    res := Mod(seven, negZero);
    NormalUnique(res.value.digits, [7]);
  }
}
