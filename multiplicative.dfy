/** Schoolbook multiplication into a preallocated digit buffer. */
module Multiplicative {
  import opened Magnitude
  import opened Representation

  lemma MulNonDecreasing(a: int, b: int, c: int)
    requires a >= 0 && b <= c
    ensures a * b <= a * c
  {
    assert a * c - a * b == a * (c - b);
  }

  lemma ProductBelow(a: nat, pa: nat, b: nat, pb: nat)
    requires a < pa && b < pb
    ensures a * b < pa * pb
  {
    MulNonDecreasing(a, b, pb);
    MulNonDecreasing(pb, a, pa - 1);
    assert pb * (pa - 1) == pa * pb - pb;
  }

  lemma DigitProduct(x: Digit, y: Digit)
    ensures 0 <= x * y <= 81
  {
    MulNonDecreasing(x, y, 9);
    MulNonDecreasing(9, x, 9);
  }

  lemma Distribute(a: int, b: int, m: int)
    ensures (a + b) * m == a * m + b * m
  {}

  lemma Regroup(t: int, low: int, top: int, m: int, whole: int)
    requires t == low * m + top * m && whole == low + top
    ensures whole * m == t
  {
    Distribute(low, top, m);
  }

  /** Multiplying magnitudes and XOR-ing the signs multiplies the values. */
  lemma SignedProduct(a: BigInteger, b: BigInteger, r: BigInteger)
    requires Mag(r.digits) == Mag(a.digits) * Mag(b.digits)
    requires r.isNegative == (a.isNegative != b.isNegative)
    ensures Value(r) == Value(a) * Value(b)
  {
    var ma: int, mb: int, mr: int := Mag(a.digits), Mag(b.digits), Mag(r.digits);
    var va, vb, vr := Value(a), Value(b), Value(r);
    assert va == (if a.isNegative then -ma else ma);
    assert vb == (if b.isNegative then -mb else mb);
    assert vr == (if r.isNegative then -mr else mr);
    SignedMul(a.isNegative, b.isNegative, ma, mb, mr, va, vb, vr);
  }

  lemma SignedMul(na: bool, nb: bool, ma: int, mb: int, mr: int, va: int, vb: int, vr: int)
    requires mr == ma * mb
    requires va == (if na then -ma else ma) && vb == (if nb then -mb else mb)
    requires vr == (if na != nb then -mr else mr)
    ensures vr == va * vb
  {
    assert (-ma) * mb == -(ma * mb) && ma * (-mb) == -(ma * mb) && (-ma) * (-mb) == ma * mb;
  }

  /** Row i of the product: the partial sum before row i plus x[i] * 10^i times a prefix of y. */
  ghost function RowTarget(x: seq<Digit>, y: seq<Digit>, i: nat, j: nat): int
    requires i < |x|
  {
    Mag(x[..i]) * Mag(y) + (x[i] as int) * Pow10(i) * Mag(y[..Min(j, |y|)])
  }

  /** A finished row adds x[i] * 10^i * Mag(y) to the partial product. */
  lemma RowDone(x: seq<Digit>, y: seq<Digit>, i: nat, j: nat)
    requires i < |x| && j >= |y|
    ensures RowTarget(x, y, i, j) == Mag(x[..i + 1]) * Mag(y)
  {
    assert y[..Min(j, |y|)] == y;
    MagPrefix(x, i);
    var low, top, m := Mag(x[..i]), (x[i] as int) * Pow10(i), Mag(y);
    var t, whole := RowTarget(x, y, i, j), Mag(x[..i + 1]);
    assert t == low * m + top * m;
    assert whole == low + top;
    Regroup(t, low, top, m, whole);
  }

  /**
   * While the row is being carried past the end of y, the pending carry's
   * position is still inside the buffer of |x| + |y| digits.
   */
  lemma WriteInBounds(x: seq<Digit>, y: seq<Digit>, i: nat, j: nat, carry: int, bufMag: nat)
    requires i < |x| && j >= |y| && carry >= 1
    requires bufMag + carry * Pow10(i + j) == RowTarget(x, y, i, j)
    ensures i + j < |x| + |y|
  {
    RowDone(x, y, i, j);
    MagBound(x[..i + 1]);
    MagBound(y);
    ProductBelow(Mag(x[..i + 1]), Pow10(i + 1), Mag(y), Pow10(|y|));
    Pow10Add(i + 1, |y|);
    MulAtLeast(carry, Pow10(i + j));
    if i + j >= |x| + |y| {
      Pow10NonDecreasing(i + 1 + |y|, i + j);
    }
  }

  lemma MulStep(m: int, bk: int, c: int, xi: int, yj: int, p: int, cur: int)
    requires cur == bk + xi * yj + c && cur >= 0
    ensures m + (cur % 10 - bk) * p + (cur / 10) * (10 * p) == m + c * p + xi * yj * p
  {
    SplitDigit(cur, p);
    assert (cur % 10 - bk) * p == (cur % 10) * p - bk * p;
    assert cur * p == bk * p + (xi * yj) * p + c * p;
  }

  lemma ColumnArith(ms: int, sk: int, carry: int, xi: int, yj: int, pi: int, pj: int, pk: int,
                    cur: int, r0: int, a: int, newMag: int, target: int)
    requires cur == sk + xi * yj + carry && cur >= 0
    requires pk == pi * pj
    requires ms + carry * pk == r0 + xi * pi * a
    requires newMag == ms + (cur % 10 - sk) * pk
    requires target == r0 + xi * pi * (a + yj * pj)
    ensures newMag + (cur / 10) * (10 * pk) == target
  {
    MulStep(ms, sk, carry, xi, yj, pk, cur);
    assert xi * pi * (a + yj * pj) == xi * pi * a + xi * yj * (pi * pj);
  }

  /** One step of the inner loop keeps the row invariant. */
  lemma MultiplyColumn(x: seq<Digit>, y: seq<Digit>, s: seq<Digit>, i: nat, j: nat, carry: int, cur: int)
    requires i < |x| && i + j < |s| && carry >= 0
    requires Mag(s) + carry * Pow10(i + j) == RowTarget(x, y, i, j)
    requires cur == s[i + j] + (x[i] as int) * (if j < |y| then y[j] as int else 0) + carry
    ensures Mag(s[i + j := cur % 10]) + (cur / 10) * Pow10(i + j + 1) == RowTarget(x, y, i, j + 1)
  {
    var k := i + j;
    var xi: int := x[i];
    var yj: int := if j < |y| then y[j] else 0;
    DigitProduct(x[i], yj);
    MagUpdate(s, k, cur % 10);
    var pi, pj, pk := Pow10(i), Pow10(j), Pow10(k);
    var a, a' := Mag(y[..Min(j, |y|)]), Mag(y[..Min(j + 1, |y|)]);
    Pow10Add(i, j);
    assert Pow10(k + 1) == 10 * pk;
    if j < |y| {
      MagPrefix(y, j);
    } else {
      assert Min(j + 1, |y|) == Min(j, |y|);
    }
    assert a' == a + yj * pj;
    var r0 := Mag(x[..i]) * Mag(y);
    assert RowTarget(x, y, i, j) == r0 + xi * pi * a;
    assert RowTarget(x, y, i, j + 1) == r0 + xi * pi * a';
    ColumnArith(Mag(s), s[k], carry, xi, yj, pi, pj, pk, cur, r0, a,
                Mag(s[k := cur % 10]), RowTarget(x, y, i, j + 1));
  }

  /**
   * operator*: for every digit of this, a carry loop accumulates its products
   * into positions i+j of a zero-filled buffer of |a| + |b| digits; the buffer
   * is normalized and the sign, a XOR b, is assigned afterwards.
   */
  method Multiply(a: BigInteger, b: BigInteger) returns (r: BigInteger)
    ensures Mag(r.digits) == Mag(a.digits) * Mag(b.digits)
    ensures Value(r) == Value(a) * Value(b)
    ensures r.isNegative == (a.isNegative != b.isNegative)
    ensures Trimmed(r.digits)
    ensures r.digits == [] <==> a.digits == [] && b.digits == []
  {
    var x, y := a.digits, b.digits;
    var buf := new Digit[|x| + |y|](_ => 0);
    MagZeroIff(buf[..]);
    assert x[..0] == [];
    var i := 0;
    while i < |x|
      invariant 0 <= i <= |x|
      invariant Mag(buf[..]) == Mag(x[..i]) * Mag(y)
    {
      var carry := 0;
      var j := 0;
      assert y[..Min(0, |y|)] == [];
      while j < |y| || carry != 0
        invariant i + j <= |x| + |y|
        invariant 0 <= carry <= 9
        invariant Mag(buf[..]) + carry * Pow10(i + j) == RowTarget(x, y, i, j)
        decreases |x| + |y| - (i + j)
      {
        if j >= |y| {
          WriteInBounds(x, y, i, j, carry, Mag(buf[..]));
        }
        var yj: int := if j < |y| then y[j] else 0;
        DigitProduct(x[i], yj);
        var cur: int := buf[i + j] + (x[i] as int) * yj + carry;
        MultiplyColumn(x, y, buf[..], i, j, carry, cur);
        buf[i + j] := cur % 10;
        carry := cur / 10;
        j := j + 1;
      }
      RowDone(x, y, i, j);
      i := i + 1;
    }
    assert x[..i] == x;
    r := RemoveLeadingZeros(BigInteger(false, buf[..]));
    r := r.(isNegative := a.isNegative != b.isNegative);
    SignedProduct(a, b, r);
  }
}
