/** Base-10 digit vectors, least-significant digit first, and the natural number they denote. */
module Magnitude {

  /** One stored decimal digit. */
  type Digit = x: int | 0 <= x < 10

  function Abs(x: int): nat { if x < 0 then -x else x }

  function Max(x: int, y: int): int { if x < y then y else x }

  function Min(x: int, y: int): int { if x < y then x else y }

  function Pow10(n: nat): (p: nat)
    ensures p >= 1
  {
    if n == 0 then 1 else 10 * Pow10(n - 1)
  }

  /** The magnitude a digit vector denotes: the sum of d[i] * 10^i. */
  function Mag(d: seq<Digit>): nat
  {
    if |d| == 0 then 0 else d[0] + 10 * Mag(d[1..])
  }

  /** n digits denote less than 10^n. */
  lemma {:induction false} MagBound(d: seq<Digit>)
    ensures Mag(d) < Pow10(|d|)
  {
    if |d| > 0 {
      MagBound(d[1..]);
    }
  }

  /** No most-significant zero, except in a vector of length one. */
  predicate Trimmed(d: seq<Digit>) { |d| <= 1 || d[|d| - 1] != 0 }

  /** What removing leading zeros leaves of a non-empty vector. */
  predicate Normal(d: seq<Digit>) { |d| >= 1 && Trimmed(d) }

  /** True when every digit is zero, that is, when the magnitude is zero. */
  predicate AllZero(d: seq<Digit>) { forall k | 0 <= k < |d| :: d[k] == 0 }

  lemma {:induction false} Pow10Add(m: nat, n: nat)
    ensures Pow10(m + n) == Pow10(m) * Pow10(n)
  {
    if m > 0 {
      Pow10Add(m - 1, n);
      assert Pow10(m + n) == 10 * Pow10(m - 1 + n);
    }
  }

  lemma {:induction false} Pow10Monotonic(m: nat, n: nat)
    requires m < n
    ensures 10 * Pow10(m) <= Pow10(n)
  {
    if m + 1 < n { Pow10Monotonic(m, n - 1); }
  }

  lemma Pow10NonDecreasing(m: nat, n: nat)
    requires m <= n
    ensures Pow10(m) <= Pow10(n)
  {
    if m < n { Pow10Monotonic(m, n); }
  }

  lemma {:induction false} MagAppend(d: seq<Digit>, x: Digit)
    ensures Mag(d + [x]) == Mag(d) + x * Pow10(|d|)
  {
    if |d| == 0 {
      assert (d + [x])[1..] == [];
    } else {
      assert (d + [x])[1..] == d[1..] + [x];
      MagAppend(d[1..], x);
      TenTimes(Mag(d[1..]), x, Pow10(|d| - 1));
    }
  }

  /** Extending a prefix by one digit adds that digit at its weight. */
  lemma MagPrefix(d: seq<Digit>, k: nat)
    requires k < |d|
    ensures Mag(d[..k + 1]) == Mag(d[..k]) + d[k] * Pow10(k)
  {
    assert d[..k + 1] == d[..k] + [d[k]];
    MagAppend(d[..k], d[k]);
  }

  /** Overwriting digit k changes the magnitude by the difference at weight 10^k. */
  lemma {:induction false} MagUpdate(s: seq<Digit>, k: nat, v: Digit)
    requires k < |s|
    ensures Mag(s[k := v]) == Mag(s) + (v - s[k]) * Pow10(k)
  {
    if k == 0 {
      assert s[k := v][1..] == s[1..];
    } else {
      assert s[k := v][1..] == s[1..][k - 1 := v];
      MagUpdate(s[1..], k - 1, v);
      var rest, w, p := Mag(s[1..]), v - s[k], Pow10(k - 1);
      assert s[1..][k - 1] == s[k];
      assert Mag(s[k := v]) == s[0] + 10 * (rest + w * p);
      TenTimes(rest, w, p);
    }
  }

  lemma TenTimes(a: int, w: int, p: int)
    ensures 10 * (a + w * p) == 10 * a + w * (10 * p)
  {}

  /** Writing v as a digit plus a carry keeps its weight. */
  lemma SplitDigit(v: int, p: int)
    requires v >= 0
    ensures (v % 10) * p + (v / 10) * (10 * p) == v * p
  {
    var q, d := v / 10, v % 10;
    assert v == 10 * q + d;
    assert (10 * q + d) * p == q * (10 * p) + d * p;
  }

  lemma {:induction false} MagZeroIff(d: seq<Digit>)
    ensures Mag(d) == 0 <==> AllZero(d)
  {
    if |d| > 0 {
      MagZeroIff(d[1..]);
      assert AllZero(d) <==> d[0] == 0 && AllZero(d[1..]) by {
        if d[0] == 0 && AllZero(d[1..]) {
          forall k | 0 <= k < |d| ensures d[k] == 0 {
            if k > 0 { assert d[k] == d[1..][k - 1]; }
          }
        }
        if AllZero(d) {
          forall k | 0 <= k < |d| - 1 ensures d[1..][k] == 0 {
            assert d[1..][k] == d[k + 1];
          }
        }
      }
    }
  }

  /** A trimmed vector of two or more digits is at least 10^(length - 1), and conversely. */
  lemma TrimmedIffBound(d: seq<Digit>)
    ensures Trimmed(d) <==> |d| <= 1 || Mag(d) >= Pow10(|d| - 1)
  {
    if |d| > 1 {
      var n := |d| - 1;
      assert d == d[..n] + [d[n]];
      MagAppend(d[..n], d[n]);
      var low, top, p := Mag(d[..n]), d[n], Pow10(n);
      MagBound(d[..n]);
      assert Mag(d) == low + top * p;
      if top != 0 { MulAtLeast(top, p); }
    }
  }

  lemma MulAtLeast(x: int, p: int)
    requires x >= 1 && p >= 0
    ensures x * p >= p
  {}

  /** Two digit vectors of one length with one magnitude are the same vector. */
  lemma {:induction false} MagInjective(a: seq<Digit>, b: seq<Digit>)
    requires |a| == |b| && Mag(a) == Mag(b)
    ensures a == b
  {
    if |a| > 0 {
      assert a[0] + 10 * Mag(a[1..]) == b[0] + 10 * Mag(b[1..]);
      assert a[0] == b[0];
      MagInjective(a[1..], b[1..]);
      assert a == [a[0]] + a[1..];
      assert b == [b[0]] + b[1..];
    }
  }

  /** Of two trimmed vectors the shorter denotes less, unless it is [] against [0]. */
  lemma TrimmedShorter(a: seq<Digit>, b: seq<Digit>)
    requires Trimmed(a) && Trimmed(b) && |a| < |b|
    ensures Mag(a) < Mag(b) || (a == [] && b == [0])
  {
    MagBound(a);
    if |b| >= 2 {
      TrimmedIffBound(b);
      if |a| < |b| - 1 { Pow10Monotonic(|a|, |b| - 1); }
    } else {
      assert |a| == 0;
      if b[0] != 0 { assert Mag(b) == b[0] + 10 * Mag(b[1..]); }
      else { assert b == [0]; }
    }
  }

  /** The canonical digit vector of a magnitude is unique. */
  lemma NormalUnique(a: seq<Digit>, b: seq<Digit>)
    requires Normal(a) && Normal(b) && Mag(a) == Mag(b)
    ensures a == b
  {
    if |a| < |b| { TrimmedShorter(a, b); }
    else if |b| < |a| { TrimmedShorter(b, a); }
    else { MagInjective(a, b); }
  }

  /** Zero has exactly one normal digit vector, [0]. */
  lemma NormalZero(d: seq<Digit>)
    requires Normal(d) && Mag(d) == 0
    ensures d == [0]
  {
    assert Mag([0]) == 0;
    NormalUnique(d, [0]);
  }
}
