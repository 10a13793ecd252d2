/**
 * The signed-magnitude integer: a sign flag and a vector of base-10 digits,
 * least-significant first, together with the normalization step that every
 * digit-producing operation ends with.
 */
module Representation {
  import opened Magnitude

  /**
   * A value of the engine. The digit vector may be empty (a string with no
   * digit characters parses to one) and a zero may carry the negative flag
   * (signs are assigned after normalization); both are reachable.
   */
  datatype BigInteger = BigInteger(isNegative: bool, digits: seq<Digit>)

  /** An operation either yields a value or fails with the message it throws. */
  datatype Result<T> = Success(value: T) | Failure(error: string)

  /** The integer a value denotes; a negatively-flagged zero denotes 0. */
  function Value(n: BigInteger): int
  {
    if n.isNegative then -(Mag(n.digits) as int) else Mag(n.digits)
  }

  /** The value produced by the default constructor: non-negative, no digits. */
  const Empty := BigInteger(false, [])

  /**
   * Pops most-significant zero digits while more than one digit remains, then
   * clears the sign of a lone zero.
   */
  method RemoveLeadingZeros(n: BigInteger) returns (r: BigInteger)
    ensures Mag(r.digits) == Mag(n.digits)
    ensures |r.digits| <= |n.digits| && r.digits == n.digits[..|r.digits|]
    ensures forall k | |r.digits| <= k < |n.digits| :: n.digits[k] == 0
    ensures Trimmed(r.digits)
    ensures |n.digits| > 0 ==> Normal(r.digits)
    ensures Trimmed(n.digits) ==> r.digits == n.digits
    ensures r.isNegative == (n.isNegative && r.digits != [0])
  {
    var digits := n.digits;
    while |digits| > 1 && digits[|digits| - 1] == 0
      invariant |digits| <= |n.digits| && digits == n.digits[..|digits|]
      invariant |n.digits| > 0 ==> |digits| > 0
      invariant forall k | |digits| <= k < |n.digits| :: n.digits[k] == 0
      invariant Mag(digits) == Mag(n.digits)
      invariant Trimmed(n.digits) ==> digits == n.digits
    {
      var last := |digits| - 1;
      assert digits == digits[..last] + [0];
      MagAppend(digits[..last], 0);
      digits := digits[..last];
    }
    var negative := n.isNegative;
    if |digits| == 1 && digits[0] == 0 {
      negative := false;
    }
    r := BigInteger(negative, digits);
  }
}
