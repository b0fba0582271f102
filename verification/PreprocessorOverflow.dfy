/** The tests by which cexp.c notices overflow in wrapping arithmetic of a given width are exact. */
module PreprocessorOverflow {
  import opened IntegerTypes
  import opened PreprocessorSpec

  /** An integer stored in a long. */
  function Long(n: nat, v: int): int {
    WrapTo(n, false, v)
  }

  function LongAnd(n: nat, a: int, b: int): int {
    Long(n, BitOp(And, n, a, b))
  }

  function LongOr(n: nat, a: int, b: int): int {
    Long(n, BitOp(Ior, n, a, b))
  }

  function LongXor(n: nat, a: int, b: int): int {
    Long(n, BitOp(Xor, n, a, b))
  }

  /** The possible_sum_sign macro. */
  predicate PossibleSumSign(n: nat, a: int, b: int, sum: int) {
    LongOr(n, LongXor(n, a, b), -LongXor(n, a, sum) - 1) < 0
  }

  predicate NegateTest(n: nat, a: int, r: int) {
    LongAnd(n, r, a) < 0
  }

  predicate MultiplyTest(n: nat, a: int, b: int, r: int) {
    a != 0 && (Long(n, Quotient(r, a)) != b || LongAnd(n, LongAnd(n, r, a), b) < 0)
  }

  predicate DivideTest(n: nat, a: int, b: int, r: int) {
    LongAnd(n, LongAnd(n, r, a), b) < 0
  }

  predicate AddTest(n: nat, a: int, b: int, r: int) {
    !PossibleSumSign(n, a, b, r)
  }

  predicate SubtractTest(n: nat, a: int, b: int, r: int) {
    !PossibleSumSign(n, r, b, a)
  }

  // ----- Signs -----

  lemma {:induction false} BitsHalf(p: nat, a: int)
    requires p >= 1
    ensures Bits(p, a) == 2 * Bits(p - 1, a / 2) + a % 2
  {
    var m := Pow2(p - 1);
    var k := (a / 2) / m;
    DoubleMultiple(k, p);
    assert a / 2 == k * m + (a / 2) % m;
    ModUnique(a, Pow2(p), k, 2 * ((a / 2) % m) + a % 2);
  }

  lemma {:induction false} TopBit(f: Bitwise, p: nat, a: int, b: int)
    requires p >= 1
    ensures BitOp(f, p, a, b) >= Pow2(p - 1) <==> BitOf(f, Bits(p, a) >= Pow2(p - 1), Bits(p, b) >= Pow2(p - 1))
    decreases p
  {
    BitsHalf(p, a);
    BitsHalf(p, b);
    if p > 1 {
      TopBit(f, p - 1, a / 2, b / 2);
    } else {
      assert BitOp(f, 0, a / 2, b / 2) == 0;
    }
  }

  lemma {:induction false} Sign(n: nat, v: int)
    requires n >= 1
    ensures Fits(n, false, Long(n, v)) && (Long(n, v) < 0 <==> Bits(n, v) >= Pow2(n - 1))
    ensures Fits(n, false, v) ==> (v < 0 <==> Bits(n, v) >= Pow2(n - 1))
  {
    if Fits(n, false, v) {
      BitsOfFitting(n, false, v);
    }
  }

  lemma {:induction false} SignOf(f: Bitwise, n: nat, a: int, b: int)
    requires n >= 1 && Fits(n, false, a) && Fits(n, false, b)
    ensures var r := Long(n, BitOp(f, n, a, b)); Fits(n, false, r) && (r < 0 <==> BitOf(f, a < 0, b < 0))
  {
    TopBit(f, n, a, b);
    Sign(n, a);
    Sign(n, b);
    var r := BitOp(f, n, a, b);
    Sign(n, r);
    BitsOfFitting(n, true, r);
    hide Long, BitOp;
  }

  lemma {:induction false} SignOfThree(n: nat, a: int, b: int, c: int)
    requires n >= 1 && Fits(n, false, a) && Fits(n, false, b) && Fits(n, false, c)
    ensures LongAnd(n, LongAnd(n, a, b), c) < 0 <==> a < 0 && b < 0 && c < 0
  {
    hide BitOp, Fits, Long;
    SignOf(And, n, a, b);
    SignOf(And, n, LongAnd(n, a, b), c);
  }

  /** Adding numbers of the signs of a and b can give a number of the sign of the sum. */
  lemma {:induction false} PossibleSum(n: nat, a: int, b: int, sum: int)
    requires n >= 1 && Fits(n, false, a) && Fits(n, false, b) && Fits(n, false, sum)
    ensures PossibleSumSign(n, a, b, sum) <==> (a < 0) != (b < 0) || (a < 0) == (sum < 0)
  {
    SignOf(Xor, n, a, b);
    SignOf(Xor, n, a, sum);
    SignOf(Ior, n, LongXor(n, a, b), -LongXor(n, a, sum) - 1);
    hide BitOp, Long;
  }

  // ----- Exactness -----

  /** What wrapping does to a number that is at most one modulus out of range. */
  lemma {:induction false} WrapNear(n: nat, z: int)
    requires n >= 1 && -2 * Pow2(n - 1) <= z < 2 * Pow2(n - 1)
    ensures Long(n, z) == if Fits(n, false, z) then z else if z < 0 then z + Pow2(n) else z - Pow2(n)
  {
    ModUnique(z, Pow2(n), if z < 0 then -1 else 0, if z < 0 then z + Pow2(n) else z);
  }

  lemma {:induction false} NegateExact(n: nat, a: int)
    requires n >= 1 && Fits(n, false, a)
    ensures NegateTest(n, a, Long(n, -a)) <==> !Fits(n, false, -a)
  {
    WrapNear(n, -a);
    Sign(n, -a);
    SignOf(And, n, Long(n, -a), a);
  }

  lemma {:induction false} AddExact(n: nat, a: int, b: int)
    requires n >= 1 && Fits(n, false, a) && Fits(n, false, b)
    ensures AddTest(n, a, b, Long(n, a + b)) <==> !Fits(n, false, a + b)
  {
    WrapNear(n, a + b);
    Sign(n, a + b);
    PossibleSum(n, a, b, Long(n, a + b));
  }

  lemma {:induction false} SubtractExact(n: nat, a: int, b: int)
    requires n >= 1 && Fits(n, false, a) && Fits(n, false, b)
    ensures SubtractTest(n, a, b, Long(n, a - b)) <==> !Fits(n, false, a - b)
  {
    WrapNear(n, a - b);
    Sign(n, a - b);
    PossibleSum(n, Long(n, a - b), b, a);
  }

  lemma {:induction false} QuotientBounds(a: int, b: int)
    requires b != 0
    ensures Magnitude(Remainder(a, b)) < Magnitude(b) && Magnitude(Quotient(a, b)) <= Magnitude(a)
    ensures (a < 0) == (b < 0) ==> Quotient(a, b) >= 0
    ensures (a < 0) != (b < 0) ==> Quotient(a, b) <= 0
  {
    var x: int, y: int := Magnitude(a), Magnitude(b);
    var q: int := x / y;
    Division(x, y, q);
    SignedProduct(q, b);
    var z := b * Quotient(a, b);
    assert z == (if a < 0 then -(q * y) else q * y);
  }

  lemma {:induction false} Division(x: int, y: int, q: int)
    requires x >= 0 && y > 0 && q == x / y
    ensures 0 <= q <= x && 0 <= x - q * y < y
  {
    var m := q * y;
    assert m == x - x % y;
    NotBelow(q, y);
  }

  lemma {:induction false} NotBelow(q: int, y: int)
    requires y >= 1
    ensures (q >= 0 ==> q * y >= q) && (q <= -1 ==> q * y <= -y)
  {
  }

  lemma {:induction false} SignedProduct(q: int, b: int)
    ensures b * q == (if b < 0 then -(q * Magnitude(b)) else q * Magnitude(b)) && b * -q == -(b * q)
  {
  }

  lemma {:induction false} DivideExact(n: nat, a: int, b: int)
    requires n >= 1 && Fits(n, false, a) && Fits(n, false, b) && b != 0
    ensures DivideTest(n, a, b, Long(n, Quotient(a, b))) <==> !Fits(n, false, Quotient(a, b))
  {
    var q := Quotient(a, b);
    QuotientBounds(a, b);
    WrapNear(n, q);
    Sign(n, q);
    SignOfThree(n, Long(n, q), a, b);
  }

  /** A product divided by one factor gives the other. */
  lemma {:induction false} QuotientOfProduct(a: int, b: int)
    requires a != 0
    ensures Quotient(a * b, a) == b
  {
    var x, y := Magnitude(a), Magnitude(b);
    assert Magnitude(a * b) == y * x by {
      SignedProduct(b, a);
      SignedProduct(a, b);
      SignedProduct(x, b);
    }
    DivisionUnique(y * x, x, y);
    ProductSign(a, b);
  }

  lemma {:induction false} DivisionUnique(z: int, x: int, y: int)
    requires x > 0 && z == y * x
    ensures z / x == y
  {
    ModUnique(z, x, y, 0);
    var q := z / x;
    assert q * x == y * x;
    assert q > y ==> (q - y) * x >= x;
    assert q < y ==> (y - q) * x >= x;
  }

  lemma {:induction false} ProductSign(a: int, b: int)
    requires a != 0
    ensures a * b < 0 <==> (b != 0 && (a < 0) != (b < 0))
  {
    assert a > 0 && b > 0 ==> a * b > 0;
    assert a < 0 && b < 0 ==> a * b > 0;
    assert a < 0 && b > 0 ==> a * b < 0;
    assert a > 0 && b < 0 ==> a * b < 0;
  }

  /** A wrapped product that divides back to b without a remainder too large for it is the product. */
  lemma {:induction false} DividesBack(n: nat, a: int, b: int, r: int)
    requires n >= 1 && Fits(n, false, a) && a != 0 && Fits(n, false, r) && Cong(n, r, a * b) && Quotient(r, a) == b
    ensures r == a * b
  {
    QuotientBounds(r, a);
    var k := ModMultiple(r, a * b, Pow2(n));
    assert Remainder(r, a) == r - a * b;
    OnlyZero(k, Pow2(n), r - a * b);
  }

  lemma {:induction false} OnlyZero(k: int, m: int, z: int)
    requires z == k * m && Magnitude(z) < m
    ensures z == 0
  {
    assert k >= 1 ==> k * m >= m;
    assert k <= -1 ==> k * m <= -m;
  }

  lemma {:induction false} MultiplyExact(n: nat, a: int, b: int)
    requires n >= 1 && Fits(n, false, a) && Fits(n, false, b)
    ensures MultiplyTest(n, a, b, Long(n, a * b)) <==> !Fits(n, false, a * b)
  {
    var r := Long(n, a * b);
    Sign(n, a * b);
    WrapCong(n, n, false, a * b);
    SignOfThree(n, r, a, b);
    if a != 0 {
      MultiplyCases(n, a, b, r);
    }
  }

  lemma {:induction false} MultiplyCases(n: nat, a: int, b: int, r: int)
    requires n >= 1 && Fits(n, false, a) && Fits(n, false, b) && a != 0
    requires r == Long(n, a * b) && Fits(n, false, r) && Cong(n, r, a * b)
    ensures Long(n, Quotient(r, a)) != b || (r < 0 && a < 0 && b < 0) <==> !Fits(n, false, a * b)
  {
    var q := Quotient(r, a);
    QuotientBounds(r, a);
    WrapNear(n, q);
    ProductSign(a, b);
    if Fits(n, false, a * b) {
      WrapOfFitting(n, false, a * b);
      QuotientOfProduct(a, b);
    } else if Fits(n, false, q) {
      if q == b {
        DividesBack(n, a, b, r);
      }
    } else {
      MostNegative(n, r, a);
    }
  }

  /** Only the most negative number divided by -1 is out of range. */
  lemma {:induction false} MostNegative(n: nat, r: int, a: int)
    requires n >= 1 && Fits(n, false, r) && Fits(n, false, a) && a != 0 && !Fits(n, false, Quotient(r, a))
    ensures r < 0 && a < 0 && Quotient(r, a) == Pow2(n - 1) && Long(n, Quotient(r, a)) < 0
  {
    QuotientBounds(r, a);
    WrapNear(n, Quotient(r, a));
  }
}
