/** Construction from text and from an int, and decimal rendering. */
module Text {
  import opened Magnitude
  import opened Representation

  /** The characters isdigit accepts in the C locale. */
  predicate IsDigitChar(c: char) { '0' <= c <= '9' }

  predicate AllDigitChars(s: string) { forall k | 0 <= k < |s| :: IsDigitChar(s[k]) }

  function CharValue(c: char): Digit
    requires IsDigitChar(c)
  {
    (c as int) - ('0' as int)
  }

  function DigitChar(d: Digit): (c: char)
    ensures IsDigitChar(c) && CharValue(c) == d
  {
    (('0' as int) + d) as char
  }

  /** The digit characters of s, in their original order. */
  function DigitChars(s: string): (r: string)
    ensures AllDigitChars(r)
  {
    if s == [] then []
    else (if IsDigitChar(s[0]) then [s[0]] else []) + DigitChars(s[1..])
  }

  /** The number a string of digit characters spells, most-significant first. */
  function DecimalValue(s: string): nat
    requires AllDigitChars(s)
  {
    if s == [] then 0 else 10 * DecimalValue(s[..|s| - 1]) + CharValue(s[|s| - 1])
  }

  /** What the string constructor reads after an optional leading '-'. */
  function Unsigned(number: string): string
  {
    if |number| > 0 && number[0] == '-' then number[1..] else number
  }

  lemma {:induction false} DecimalValuePrepend(c: char, s: string)
    requires IsDigitChar(c) && AllDigitChars(s)
    ensures AllDigitChars([c] + s)
    ensures DecimalValue([c] + s) == CharValue(c) * Pow10(|s|) + DecimalValue(s)
  {
    var t := [c] + s;
    assert AllDigitChars(t) by {
      forall k | 0 <= k < |t| ensures IsDigitChar(t[k]) {
        if k > 0 { assert t[k] == s[k - 1]; }
      }
    }
    if s != [] {
      var init := s[..|s| - 1];
      assert t[..|t| - 1] == [c] + init;
      assert t[|t| - 1] == s[|s| - 1];
      assert AllDigitChars(init) by {
        forall k | 0 <= k < |init| ensures IsDigitChar(init[k]) { assert init[k] == s[k]; }
      }
      DecimalValuePrepend(c, init);
      var v, p := CharValue(c), Pow10(|init|);
      assert DecimalValue(t) == 10 * (v * p + DecimalValue(init)) + CharValue(s[|s| - 1]);
      TenTimes(DecimalValue(init), v, p);
    } else {
      assert t[..|t| - 1] == [];
    }
  }

  lemma {:induction false} DigitCharsOfDigits(s: string)
    requires AllDigitChars(s)
    ensures DigitChars(s) == s
  {
    if s != [] {
      assert AllDigitChars(s[1..]) by {
        forall k | 0 <= k < |s| - 1 ensures IsDigitChar(s[1..][k]) { assert s[1..][k] == s[k + 1]; }
      }
      DigitCharsOfDigits(s[1..]);
      assert s == [s[0]] + s[1..];
    }
  }

  /**
   * The string constructor: the sign is set iff the first character is '-';
   * the remaining digit characters are pushed least-significant first (the
   * others are skipped) and the vector is normalized.
   */
  method Parse(number: string) returns (r: BigInteger)
    ensures r.isNegative <==> |number| > 0 && number[0] == '-' && r.digits != [0]
    ensures Mag(r.digits) == DecimalValue(DigitChars(Unsigned(number)))
    ensures r.digits == [] <==> DigitChars(Unsigned(number)) == []
    ensures Trimmed(r.digits)
  {
    var negative := |number| > 0 && number[0] == '-';
    var num := if negative then number[1..] else number;
    var digits: seq<Digit> := [];
    var i := |num|;
    while i > 0
      invariant 0 <= i <= |num|
      invariant |digits| == |DigitChars(num[i..])|
      invariant Mag(digits) == DecimalValue(DigitChars(num[i..]))
    {
      i := i - 1;
      assert num[i..][1..] == num[i + 1..];
      if IsDigitChar(num[i]) {
        assert DigitChars(num[i..]) == [num[i]] + DigitChars(num[i + 1..]);
        DecimalValuePrepend(num[i], DigitChars(num[i + 1..]));
        MagAppend(digits, CharValue(num[i]));
        digits := digits + [CharValue(num[i])];
      } else {
        assert DigitChars(num[i..]) == DigitChars(num[i + 1..]);
      }
    }
    assert num[0..] == num;
    r := RemoveLeadingZeros(BigInteger(negative, digits));
  }

  /** The decimal text of a natural number, most-significant digit first, as std::to_string writes it. */
  function NatText(k: nat): (s: string)
    ensures s != [] && AllDigitChars(s) && DecimalValue(s) == k
  {
    if k < 10 then [DigitChar(k)]
    else
      var s := NatText(k / 10) + [DigitChar(k % 10)];
      assert s[..|s| - 1] == NatText(k / 10);
      s
  }

  /** The decimal text of an integer: a '-' before the digits of a negative one. */
  function IntText(n: int): (s: string)
    ensures DigitChars(Unsigned(s)) == NatText(Abs(n))
    ensures (|s| > 0 && s[0] == '-') <==> n < 0
  {
    DigitCharsOfDigits(NatText(Abs(n)));
    if n < 0 then
      var s := "-" + NatText(-n);
      assert s[1..] == NatText(-n);
      s
    else NatText(n)
  }

  /** The int constructor: parsing the int's decimal text. */
  method FromInt(n: int) returns (r: BigInteger)
    requires -0x8000_0000 <= n < 0x8000_0000
    ensures Value(r) == n
    ensures Normal(r.digits)
    ensures r.isNegative <==> n < 0
  {
    r := Parse(IntText(n));
    if n < 0 {
      assert Mag(r.digits) != 0;
    }
  }

  /** The digits of a vector as characters, most-significant first. */
  function DigitText(d: seq<Digit>): (s: string)
    ensures |s| == |d| && AllDigitChars(s)
    ensures forall k | 0 <= k < |d| :: s[k] == DigitChar(d[|d| - 1 - k])
    ensures DecimalValue(s) == Mag(d)
  {
    if d == [] then ""
    else
      var s := DigitText(d[1..]) + [DigitChar(d[0])];
      assert s[..|s| - 1] == DigitText(d[1..]);
      s
  }

  /** The text operator<< writes: '-' when the flag is set, then the digits from the most significant. */
  function Render(n: BigInteger): (s: string)
    ensures |s| == |n.digits| + (if n.isNegative then 1 else 0)
    ensures (|s| > 0 && s[0] == '-') <==> n.isNegative
    ensures DigitChars(Unsigned(s)) == DigitText(n.digits)
  {
    DigitCharsOfDigits(DigitText(n.digits));
    if n.isNegative then
      var s := "-" + DigitText(n.digits);
      assert s[1..] == DigitText(n.digits);
      s
    else DigitText(n.digits)
  }

  /**
   * Parsing the rendered text of a value with trimmed digits gives back the
   * same digits and the same sign, except that a negatively-flagged zero
   * comes back non-negative; so a canonical value comes back ==.
   */
  method RoundTrip(n: BigInteger) returns (m: BigInteger)
    requires Trimmed(n.digits)
    ensures m.digits == n.digits
    ensures m.isNegative == (n.isNegative && n.digits != [0])
    ensures !(n.isNegative && n.digits == [0]) ==> m == n
  {
    var text := Render(n);
    m := Parse(text);
    if n.digits != [] {
      NormalUnique(m.digits, n.digits);
    }
  }
}
