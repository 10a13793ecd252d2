/** Magnitude comparison and the six relational operators. */
module Comparison {
  import opened Magnitude
  import opened Representation

  /**
   * Compares digits i-1 down to 0 of two vectors of one length; the first
   * position where they differ decides.
   */
  function CompareFrom(a: seq<Digit>, b: seq<Digit>, i: nat): (c: int)
    requires |a| == |b| && i <= |a|
    ensures -1 <= c <= 1
  {
    if i == 0 then 0
    else if a[i - 1] != b[i - 1] then (if a[i - 1] < b[i - 1] then -1 else 1)
    else CompareFrom(a, b, i - 1)
  }

  /** -1, 0 or 1: the shorter digit vector is smaller, else the most-significant difference decides. */
  function CompareAbs(a: BigInteger, b: BigInteger): (c: int)
    ensures -1 <= c <= 1
    ensures c == 0 <==> a.digits == b.digits
  {
    if |a.digits| != |b.digits| then
      (if |a.digits| < |b.digits| then -1 else 1)
    else
      CompareFromOrder(a.digits, b.digits, |a.digits|);
      assert a.digits[..|a.digits|] == a.digits && b.digits[..|b.digits|] == b.digits;
      CompareFrom(a.digits, b.digits, |a.digits|)
  }

  /** operator==: field-wise equality, which is equality of the values as data. */
  predicate Eq(a: BigInteger, b: BigInteger): (r: bool)
    ensures r <==> a == b
  {
    a.isNegative == b.isNegative && a.digits == b.digits
  }

  /** operator!=. */
  predicate Ne(a: BigInteger, b: BigInteger): (r: bool)
    ensures r <==> a != b
  {
    !Eq(a, b)
  }

  /**
   * operator<: a negative flag is below a non-negative one; on equal flags the
   * magnitudes decide, reversed for negative flags.
   */
  predicate Lt(a: BigInteger, b: BigInteger): (r: bool)
    ensures r ==> a != b
    ensures a.isNegative && !b.isNegative ==> r
    ensures !a.isNegative && b.isNegative ==> !r
  {
    if a.isNegative != b.isNegative then a.isNegative
    else
      var cmp := CompareAbs(a, b);
      if a.isNegative then cmp > 0 else cmp < 0
  }

  /** operator>. */
  predicate Gt(a: BigInteger, b: BigInteger): (r: bool)
    ensures r ==> a != b
    ensures !a.isNegative && b.isNegative ==> r
    ensures a.isNegative && !b.isNegative ==> !r
  {
    Lt(b, a)
  }

  /** operator<=. */
  predicate Le(a: BigInteger, b: BigInteger): (r: bool)
    ensures a == b ==> r
    ensures a.isNegative && !b.isNegative ==> r
  {
    !Gt(a, b)
  }

  /** operator>=. */
  predicate Ge(a: BigInteger, b: BigInteger): (r: bool)
    ensures a == b ==> r
    ensures !a.isNegative && b.isNegative ==> r
  {
    !Lt(a, b)
  }

  /**
   * The position of a digit vector in compareAbs's order: twice its
   * magnitude, plus one when it has digits (so [] sits just below [0]).
   */
  function MagKey(d: seq<Digit>): nat
  {
    2 * Mag(d) + (if d == [] then 0 else 1)
  }

  /**
   * The position of a value in the order the operators implement: the
   * magnitude key for a non-negative flag, mirrored below zero for a negative
   * one.
   */
  function OrderKey(n: BigInteger): int
  {
    if n.isNegative then -(MagKey(n.digits) as int) - 1 else MagKey(n.digits)
  }

  lemma DigitDominates(la: int, lb: int, x: int, y: int, p: int)
    requires 0 <= la < p && 0 <= lb && x < y
    ensures la + x * p < lb + y * p
  {
    MulAtLeast(y - x, p);
    assert (y - x) * p == y * p - x * p;
  }

  /** On equally long vectors, the scan from position i-1 down orders the prefixes by magnitude. */
  lemma {:induction false} CompareFromOrder(a: seq<Digit>, b: seq<Digit>, i: nat)
    requires |a| == |b| && i <= |a|
    ensures CompareFrom(a, b, i) == 0 <==> a[..i] == b[..i]
    ensures CompareFrom(a, b, i) < 0 <==> Mag(a[..i]) < Mag(b[..i])
    ensures CompareFrom(a, b, i) > 0 <==> Mag(a[..i]) > Mag(b[..i])
  {
    if i > 0 {
      var j := i - 1;
      MagPrefix(a, j);
      MagPrefix(b, j);
      var la, lb, p := Mag(a[..j]), Mag(b[..j]), Pow10(j);
      MagBound(a[..j]);
      MagBound(b[..j]);
      assert a[..i][j] == a[j] && b[..i][j] == b[j];
      if a[j] < b[j] {
        DigitDominates(la, lb, a[j], b[j], p);
      } else if a[j] > b[j] {
        DigitDominates(lb, la, b[j], a[j], p);
      } else {
        CompareFromOrder(a, b, j);
        assert a[..i] == a[..j] + [a[j]] && b[..i] == b[..j] + [b[j]];
        if a[..i] == b[..i] { assert a[..j] == a[..i][..j] && b[..j] == b[..i][..j]; }
      }
    }
  }

  /** Swapping the operands negates the comparison. */
  lemma CompareAbsAntisymmetric(a: BigInteger, b: BigInteger)
    ensures CompareAbs(b, a) == -CompareAbs(a, b)
  {
    if |a.digits| == |b.digits| {
      CompareFromOrder(a.digits, b.digits, |a.digits|);
      CompareFromOrder(b.digits, a.digits, |a.digits|);
    }
  }

  /**
   * For trimmed vectors (possibly empty), "not smaller" means a larger
   * magnitude, or an equal one held in at least as many digits.
   */
  lemma CompareAbsTrimmed(a: BigInteger, b: BigInteger)
    requires Trimmed(a.digits) && Trimmed(b.digits)
    ensures CompareAbs(a, b) >= 0 <==>
      Mag(a.digits) > Mag(b.digits) || (Mag(a.digits) == Mag(b.digits) && |a.digits| >= |b.digits|)
  {
    if |a.digits| < |b.digits| {
      TrimmedShorter(a.digits, b.digits);
    } else if |b.digits| < |a.digits| {
      TrimmedShorter(b.digits, a.digits);
    } else {
      CompareFromOrder(a.digits, b.digits, |a.digits|);
      assert a.digits[..|a.digits|] == a.digits && b.digits[..|b.digits|] == b.digits;
    }
  }

  /** On trimmed inputs, CompareAbs is exactly the order of the magnitude keys. */
  lemma CompareAbsKey(a: BigInteger, b: BigInteger)
    requires Trimmed(a.digits) && Trimmed(b.digits)
    ensures CompareAbs(a, b) < 0 <==> MagKey(a.digits) < MagKey(b.digits)
    ensures CompareAbs(a, b) == 0 <==> MagKey(a.digits) == MagKey(b.digits)
    ensures CompareAbs(a, b) > 0 <==> MagKey(a.digits) > MagKey(b.digits)
  {
    CompareAbsTrimmed(a, b);
    CompareAbsTrimmed(b, a);
    CompareAbsAntisymmetric(a, b);
    if |a.digits| < |b.digits| {
      TrimmedShorter(a.digits, b.digits);
    } else if |b.digits| < |a.digits| {
      TrimmedShorter(b.digits, a.digits);
    }
    if Mag(a.digits) == Mag(b.digits) && a.digits != [] && b.digits != [] {
      NormalUnique(a.digits, b.digits);
    }
  }

  /** On normalized inputs, CompareAbs is exactly the order of the magnitudes. */
  lemma CompareAbsOrder(a: BigInteger, b: BigInteger)
    requires Normal(a.digits) && Normal(b.digits)
    ensures CompareAbs(a, b) == -1 <==> Mag(a.digits) < Mag(b.digits)
    ensures CompareAbs(a, b) == 0 <==> Mag(a.digits) == Mag(b.digits)
    ensures CompareAbs(a, b) == 1 <==> Mag(a.digits) > Mag(b.digits)
  {
    CompareAbsTrimmed(a, b);
    CompareAbsTrimmed(b, a);
    CompareAbsAntisymmetric(a, b);
    if Mag(a.digits) == Mag(b.digits) { NormalUnique(a.digits, b.digits); }
  }

  /** On trimmed values, operator< is the order of OrderKey. */
  lemma LtIsKeyOrder(a: BigInteger, b: BigInteger)
    requires Trimmed(a.digits) && Trimmed(b.digits)
    ensures Lt(a, b) <==> OrderKey(a) < OrderKey(b)
  {
    CompareAbsKey(a, b);
  }

  /** On trimmed values, operator== holds exactly when the keys agree. */
  lemma EqIsKeyEquality(a: BigInteger, b: BigInteger)
    requires Trimmed(a.digits) && Trimmed(b.digits)
    ensures Eq(a, b) <==> OrderKey(a) == OrderKey(b)
  {
    CompareAbsKey(a, b);
  }

  /**
   * operator< agrees with the integer order, except that a negatively-flagged
   * zero is below a non-negative one.
   */
  lemma LtMeaning(a: BigInteger, b: BigInteger)
    requires Normal(a.digits) && Normal(b.digits)
    ensures Lt(a, b) <==>
      Value(a) < Value(b) ||
      (a.isNegative && !b.isNegative && Mag(a.digits) == 0 && Mag(b.digits) == 0)
  {
    LtIsKeyOrder(a, b);
  }

  /** The derived operators are the derived forms of the same order. */
  lemma DerivedComparisons(a: BigInteger, b: BigInteger)
    requires Trimmed(a.digits) && Trimmed(b.digits)
    ensures Gt(a, b) <==> OrderKey(a) > OrderKey(b)
    ensures Le(a, b) <==> OrderKey(a) <= OrderKey(b)
    ensures Ge(a, b) <==> OrderKey(a) >= OrderKey(b)
    ensures Ne(a, b) <==> OrderKey(a) != OrderKey(b)
  {
    LtIsKeyOrder(a, b);
    LtIsKeyOrder(b, a);
    EqIsKeyEquality(a, b);
  }

  /** On non-negative normalized values, operator<= compares magnitudes. */
  lemma LeNonNegative(a: BigInteger, b: BigInteger)
    requires Normal(a.digits) && Normal(b.digits) && !a.isNegative && !b.isNegative
    ensures Le(a, b) <==> Mag(a.digits) <= Mag(b.digits)
  {
    DerivedComparisons(a, b);
  }

  /**
   * On every value with trimmed digits (the empty vector included), operator<
   * is a strict total order whose incomparable pairs are exactly the == pairs.
   */
  lemma LtStrictTotalOrder(a: BigInteger, b: BigInteger, c: BigInteger)
    requires Trimmed(a.digits) && Trimmed(b.digits) && Trimmed(c.digits)
    ensures !Lt(a, a)
    ensures Lt(a, b) && Lt(b, c) ==> Lt(a, c)
    ensures Lt(a, b) || Eq(a, b) || Lt(b, a)
    ensures !(Lt(a, b) && Lt(b, a)) && !(Lt(a, b) && Eq(a, b))
  {
    LtIsKeyOrder(a, a);
    LtIsKeyOrder(a, b);
    LtIsKeyOrder(b, a);
    LtIsKeyOrder(b, c);
    LtIsKeyOrder(a, c);
    EqIsKeyEquality(a, b);
  }
}
