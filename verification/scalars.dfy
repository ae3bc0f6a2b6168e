/** Scalar kinds shared by the daemon payload and the library representation. */
module Scalars {

  /** A 64-bit IEEE 754 double kept as its bit pattern; the model performs
      no arithmetic on doubles and compares them only with C's `==`. */
  datatype Double = Double(bits: bv64)

  const SignBit: bv64 := 0x8000_0000_0000_0000
  const ExponentBits: bv64 := 0x7FF0_0000_0000_0000
  const FractionBits: bv64 := 0x000F_FFFF_FFFF_FFFF

  /** Not a number: every exponent bit set and a non-zero fraction. */
  predicate IsNaN(d: Double) {
    d.bits & ExponentBits == ExponentBits && d.bits & FractionBits != 0
  }

  /** Positive or negative zero: nothing set but possibly the sign. */
  predicate IsZero(d: Double) {
    d.bits & (ExponentBits | FractionBits) == 0
  }

  /** C's `==` on two doubles, the IEEE 754 comparison: a NaN equals
      nothing, itself included, the two zeros are equal, and any other pair
      is equal exactly when the bit patterns are. */
  predicate DoubleEq(a: Double, b: Double) {
    !IsNaN(a) && !IsNaN(b) && (a == b || (IsZero(a) && IsZero(b)))
  }

  /** Off the NaNs the comparison is an equivalence, and it differs from
      equality of bit patterns only on the two zeros. */
  lemma DoubleEqEquivalence(a: Double, b: Double, c: Double)
    ensures DoubleEq(a, a) <==> !IsNaN(a)
    ensures DoubleEq(a, b) <==> DoubleEq(b, a)
    ensures DoubleEq(a, b) && DoubleEq(b, c) ==> DoubleEq(a, c)
    ensures !IsZero(a) ==> (DoubleEq(a, b) <==> !IsNaN(a) && a == b)
  {
  }

  /** The IEEE cases on concrete patterns: the quiet NaN 0x7FF8... is unequal
      to itself, +0.0 equals -0.0, and 1.0 equals only itself. */
  lemma DoubleEqExamples()
    ensures IsNaN(Double(0x7FF8_0000_0000_0000)) && !DoubleEq(Double(0x7FF8_0000_0000_0000), Double(0x7FF8_0000_0000_0000))
    ensures DoubleEq(Double(0), Double(SignBit)) && Double(0) != Double(SignBit)
    ensures DoubleEq(Double(0x3FF0_0000_0000_0000), Double(0x3FF0_0000_0000_0000))
    ensures !DoubleEq(Double(0x3FF0_0000_0000_0000), Double(0xBFF0_0000_0000_0000))
    ensures !IsNaN(Double(0x7FF0_0000_0000_0000))
  {
  }

  const Int32Min: int := -0x8000_0000
  const Int32Max: int := 0x7FFF_FFFF

  predicate InInt32(x: int) {
    Int32Min <= x <= Int32Max
  }

  /** Two's complement truncation of an integer to 32 bits, the effect of
      passing a 64-bit payload integer where GVariant expects an int32. */
  function ToInt32(x: int): (r: int)
    ensures InInt32(r)
    ensures (r - x) % 0x1_0000_0000 == 0
    ensures InInt32(x) ==> r == x
  {
    (x - Int32Min) % 0x1_0000_0000 + Int32Min
  }
}
