/** Unsigned addition and subtraction on digit vectors, and the signed +, binary - and unary -. */
module Additive {
  import opened Magnitude
  import opened Representation
  import opened Comparison

  lemma CarryStep(m: int, s: int, c: int, xi: int, yi: int, p: int, digit: int)
    requires digit == c + xi + yi && digit >= 0
    requires m + c * p == s
    ensures m + (digit % 10) * p + (digit / 10) * (10 * p) == s + xi * p + yi * p
  {
    SplitDigit(digit, p);
    assert digit * p == c * p + xi * p + yi * p;
  }

  lemma BorrowStep(m: int, s: int, borrow: int, borrow': int, xi: int, yi: int, p: int, digit: int)
    requires digit - 10 * borrow' == xi - borrow - yi
    requires m - borrow * p == s
    ensures m + digit * p - borrow' * (10 * p) == s + xi * p - yi * p
  {
    assert digit * p - borrow' * (10 * p) == (digit - 10 * borrow') * p;
    assert (xi - borrow - yi) * p == xi * p - borrow * p - yi * p;
  }

  /** One column of the addition loop preserves its value invariant. */
  lemma AddColumn(x: seq<Digit>, y: seq<Digit>, digits: seq<Digit>, i: nat, carry: int)
    requires 0 <= carry <= 1
    requires Mag(digits) + carry * Pow10(|digits|) == Mag(x[..Min(i, |x|)]) + Mag(y[..Min(i, |y|)])
    requires |digits| == i
    ensures var digit := carry + (if i < |x| then x[i] else 0) + (if i < |y| then y[i] else 0);
      Mag(digits + [digit % 10]) + (digit / 10) * Pow10(i + 1) ==
      Mag(x[..Min(i + 1, |x|)]) + Mag(y[..Min(i + 1, |y|)])
  {
    var xi := if i < |x| then x[i] else 0;
    var yi := if i < |y| then y[i] else 0;
    var digit := carry + xi + yi;
    var p := Pow10(i);
    if i < |x| { MagPrefix(x, i); } else { assert Min(i + 1, |x|) == Min(i, |x|); }
    if i < |y| { MagPrefix(y, i); } else { assert Min(i + 1, |y|) == Min(i, |y|); }
    assert Mag(x[..Min(i + 1, |x|)]) == Mag(x[..Min(i, |x|)]) + xi * p;
    assert Mag(y[..Min(i + 1, |y|)]) == Mag(y[..Min(i, |y|)]) + yi * p;
    MagAppend(digits, digit % 10);
    CarryStep(Mag(digits), Mag(x[..Min(i, |x|)]) + Mag(y[..Min(i, |y|)]), carry, xi, yi, p, digit);
  }

  /** One column of the subtraction loop preserves its value invariant. */
  lemma SubtractColumn(x: seq<Digit>, y: seq<Digit>, digits: seq<Digit>, i: nat, borrow: int, borrow': int, digit: Digit)
    requires i < |x| && |digits| == i
    requires digit - 10 * borrow' == x[i] - borrow - (if i < |y| then y[i] else 0)
    requires Mag(digits) - borrow * Pow10(i) == Mag(x[..i]) - Mag(y[..Min(i, |y|)])
    ensures Mag(digits + [digit]) - borrow' * Pow10(i + 1) == Mag(x[..i + 1]) - Mag(y[..Min(i + 1, |y|)])
  {
    var yi := if i < |y| then y[i] else 0;
    var p := Pow10(i);
    MagPrefix(x, i);
    if i < |y| { MagPrefix(y, i); } else { assert Min(i + 1, |y|) == Min(i, |y|); }
    assert Mag(y[..Min(i + 1, |y|)]) == Mag(y[..Min(i, |y|)]) + yi * p;
    MagAppend(digits, digit);
    BorrowStep(Mag(digits), Mag(x[..i]) - Mag(y[..Min(i, |y|)]), borrow, borrow', x[i], yi, p, digit);
  }

  /** A sum held in as many digits as its longer trimmed operand has no leading zero. */
  lemma SumTrimmed(x: seq<Digit>, y: seq<Digit>, digits: seq<Digit>)
    requires Trimmed(x) && Trimmed(y)
    requires |digits| == Max(|x|, |y|) && Mag(digits) == Mag(x) + Mag(y)
    ensures Trimmed(digits)
  {
    TrimmedIffBound(x);
    TrimmedIffBound(y);
    TrimmedIffBound(digits);
  }

  /**
   * The carry loop of addAbs: runs while digits remain in either operand or a
   * carry is pending.
   */
  method AddDigits(x: seq<Digit>, y: seq<Digit>) returns (digits: seq<Digit>)
    ensures Mag(digits) == Mag(x) + Mag(y)
    ensures Max(|x|, |y|) <= |digits| <= Max(|x|, |y|) + 1
    ensures |digits| > Max(|x|, |y|) ==> digits[Max(|x|, |y|)] == 1
    ensures digits == [] <==> x == [] && y == []
  {
    digits := [];
    var carry := 0;
    var n := Max(|x|, |y|);
    var i := 0;
    while i < n || carry != 0
      invariant 0 <= carry <= 1
      invariant |digits| == i && i <= n + 1
      invariant i == 0 ==> carry == 0
      invariant i > n ==> carry == 0 && digits[n] == 1
      invariant Mag(digits) + carry * Pow10(i) == Mag(x[..Min(i, |x|)]) + Mag(y[..Min(i, |y|)])
      decreases n + 1 - i
    {
      var xi := if i < |x| then x[i] else 0;
      var yi := if i < |y| then y[i] else 0;
      var digit := carry + xi + yi;
      AddColumn(x, y, digits, i, carry);
      digits := digits + [digit % 10];
      carry := digit / 10;
      i := i + 1;
    }
    assert x[..Min(i, |x|)] == x && y[..Min(i, |y|)] == y;
  }

  /**
   * Digit-wise sum with carry of the two magnitudes. The result is
   * non-negative.
   */
  method AddAbs(a: BigInteger, b: BigInteger) returns (r: BigInteger)
    ensures !r.isNegative
    ensures Mag(r.digits) == Mag(a.digits) + Mag(b.digits)
    ensures Max(|a.digits|, |b.digits|) <= |r.digits| <= Max(|a.digits|, |b.digits|) + 1
    ensures r.digits == [] <==> a.digits == [] && b.digits == []
    ensures Trimmed(a.digits) && Trimmed(b.digits) ==> Trimmed(r.digits)
  {
    var digits := AddDigits(a.digits, b.digits);
    if Trimmed(a.digits) && Trimmed(b.digits) && |digits| == Max(|a.digits|, |b.digits|) {
      SumTrimmed(a.digits, b.digits, digits);
    }
    r := BigInteger(false, digits);
  }

  /**
   * The borrow loop of subtractAbs: one digit per digit of the minuend, which
   * must not be the smaller magnitude.
   */
  method SubtractDigits(x: seq<Digit>, y: seq<Digit>) returns (digits: seq<Digit>)
    requires |y| <= |x| && Mag(y) <= Mag(x)
    ensures |digits| == |x|
    ensures Mag(digits) == Mag(x) - Mag(y)
  {
    digits := [];
    var borrow := 0;
    var i := 0;
    while i < |x|
      invariant 0 <= i <= |x| && |digits| == i
      invariant 0 <= borrow <= 1
      invariant Mag(digits) - borrow * Pow10(i) == Mag(x[..i]) - Mag(y[..Min(i, |y|)])
    {
      var yi := if i < |y| then y[i] else 0;
      var digit := x[i] - borrow - yi;
      var borrow' := 0;
      if digit < 0 {
        digit := digit + 10;
        borrow' := 1;
      }
      SubtractColumn(x, y, digits, i, borrow, borrow', digit);
      digits := digits + [digit];
      borrow := borrow';
      i := i + 1;
    }
    assert x[..i] == x && y[..Min(i, |y|)] == y;
    MagBound(digits);
    assert borrow == 0;
  }

  /**
   * Digit-wise difference with borrow of the larger magnitude minus the
   * smaller (the operands are swapped when the first is smaller), normalized.
   */
  method SubtractAbs(a: BigInteger, b: BigInteger) returns (r: BigInteger)
    requires Trimmed(a.digits) && Trimmed(b.digits)
    ensures !r.isNegative
    ensures Mag(r.digits) == Abs(Mag(a.digits) - Mag(b.digits))
    ensures Trimmed(r.digits)
    ensures r.digits == [] <==> a.digits == [] && b.digits == []
    decreases if CompareAbs(a, b) < 0 then 1 else 0
  {
    if CompareAbs(a, b) < 0 {
      CompareAbsAntisymmetric(a, b);
      r := SubtractAbs(b, a);
      return;
    }
    CompareAbsTrimmed(a, b);
    var digits := SubtractDigits(a.digits, b.digits);
    r := RemoveLeadingZeros(BigInteger(false, digits));
  }

  /**
   * Signed addition: equal signs add magnitudes and keep the sign; otherwise
   * the smaller magnitude is taken from the larger and the sign of the
   * operand CompareAbs found not smaller is assigned after normalization.
   */
  method Add(a: BigInteger, b: BigInteger) returns (r: BigInteger)
    requires Trimmed(a.digits) && Trimmed(b.digits)
    ensures Value(r) == Value(a) + Value(b)
    ensures Trimmed(r.digits)
    ensures r.digits == [] <==> a.digits == [] && b.digits == []
    ensures a.isNegative == b.isNegative ==> r.isNegative == a.isNegative
    ensures a.isNegative != b.isNegative && Mag(r.digits) == 0 ==>
      r.isNegative == (if |a.digits| >= |b.digits| then a.isNegative else b.isNegative)
  {
    if a.isNegative == b.isNegative {
      r := AddAbs(a, b);
      r := r.(isNegative := a.isNegative);
    } else if CompareAbs(a, b) >= 0 {
      CompareAbsTrimmed(a, b);
      r := SubtractAbs(a, b);
      r := r.(isNegative := a.isNegative);
    } else {
      CompareAbsTrimmed(a, b);
      r := SubtractAbs(b, a);
      r := r.(isNegative := b.isNegative);
    }
  }

  /** Unary minus: flips the sign of everything except a digit vector that is exactly [0]. */
  function Negate(n: BigInteger): (r: BigInteger)
    ensures Value(r) == -Value(n)
    ensures r.digits == n.digits
    ensures r.digits == [0] ==> r == n
    ensures r.digits != [0] ==> r.isNegative != n.isNegative
  {
    if n.digits == [0] then
      assert Mag(n.digits) == 0 + 10 * Mag([]);
      n
    else n.(isNegative := !n.isNegative)
  }

  /** -(-a) gives back a, for every value. */
  lemma NegateInvolutive(n: BigInteger)
    ensures Negate(Negate(n)) == n
  {}

  /** Binary minus: a + (-b). */
  method Sub(a: BigInteger, b: BigInteger) returns (r: BigInteger)
    requires Trimmed(a.digits) && Trimmed(b.digits)
    ensures Value(r) == Value(a) - Value(b)
    ensures Trimmed(r.digits)
    ensures r.digits == [] <==> a.digits == [] && b.digits == []
    ensures a.isNegative == Negate(b).isNegative ==> r.isNegative == a.isNegative
    ensures a.isNegative != Negate(b).isNegative && Mag(r.digits) == 0 ==>
      r.isNegative == (if |a.digits| >= |b.digits| then a.isNegative else Negate(b).isNegative)
  {
    r := Add(a, Negate(b));
  }
}
