/** Laws of #if arithmetic: what the operators promise of one another, for all operands. */
module PreprocessorLaws {
  import opened IntegerTypes
  import opened PreprocessorSpec

  /** The value of an operation on two numbers. */
  function ValueOf(h: Host, op: BinaryOp, x: Num, y: Num): int {
    BinaryNum(h, op, x, y).0.v
  }

  ghost predicate Operands(h: Host, x: Num, y: Num) {
    h.bits >= 8 && InType(h, x) && InType(h, y)
  }

  // ----- Comparisons -----

  /** Exactly one of <, == and > holds; the other three operators are their negations, and turning
      the operands round turns the operator round. */
  lemma {:induction false} OneComparisonHolds(h: Host, x: Num, y: Num)
    requires Operands(h, x, y)
    ensures ValueOf(h, Lt, x, y) + ValueOf(h, Eq, x, y) + ValueOf(h, Gt, x, y) == 1
    ensures forall op :: op in {Lt, Eq, Gt, Le, Ne, Ge} ==> ValueOf(h, op, x, y) in {0, 1}
    ensures ValueOf(h, Ge, x, y) == 1 - ValueOf(h, Lt, x, y)
    ensures ValueOf(h, Le, x, y) == 1 - ValueOf(h, Gt, x, y)
    ensures ValueOf(h, Ne, x, y) == 1 - ValueOf(h, Eq, x, y)
    ensures ValueOf(h, Gt, x, y) == ValueOf(h, Lt, y, x) && ValueOf(h, Ge, x, y) == ValueOf(h, Le, y, x)
  {
    hide Converted;
  }

  /** Numbers of one type are ordered as they stand; a negative number beside an unsigned one counts
      as 2^bits more, so it is the smaller only of numbers above that. */
  lemma {:induction false} LessThanIs(h: Host, x: Num, y: Num)
    requires Operands(h, x, y)
    ensures x.uns == y.uns ==> (ValueOf(h, Lt, x, y) == 1 <==> x.v < y.v)
    ensures y.uns && x.v < 0 ==> (ValueOf(h, Lt, x, y) == 1 <==> x.v + Pow2(h.bits) < y.v)
    ensures x.uns && y.v < 0 ==> (ValueOf(h, Lt, x, y) == 1 <==> x.v < y.v + Pow2(h.bits))
    ensures x.v >= 0 && y.v >= 0 ==> (ValueOf(h, Lt, x, y) == 1 <==> x.v < y.v)
  {
    BitsOfFitting(h.bits, x.uns, x.v);
    BitsOfFitting(h.bits, y.uns, y.v);
    hide Bits;
  }

  // ----- Arithmetic -----

  lemma {:induction false} TruncatedQuotient(a: int, b: int)
    requires b != 0
    ensures Magnitude(Remainder(a, b)) < Magnitude(b)
    ensures Remainder(a, b) == 0 || (Remainder(a, b) < 0) == (a < 0)
  {
    var m: int, n: int := Magnitude(a), Magnitude(b);
    var q, r := m / n, m % n;
    assert m == q * n + r && 0 <= r < n;
    assert b * Quotient(a, b) == if a < 0 then -(q * n) else q * n by {
      SignedProduct(q, n);
    }
    hide Quotient;
  }

  lemma {:induction false} SignedProduct(q: int, n: int)
    ensures n * -q == -(q * n) && -n * q == -(q * n) && -n * -q == q * n && n * q == q * n
  {
  }

  /** A number converted to a type is one of that type, with the same bits, and converting it again
      changes nothing. */
  lemma {:induction false} ConvertedStays(h: Host, uns: bool, x: Num)
    requires h.bits >= 8 && InType(h, x) && (x.uns ==> uns)
    ensures var a := Converted(h, uns, x); Fits(h.bits, uns, a) && (a == 0 <==> x.v == 0)
  {
    BitsOfFitting(h.bits, x.uns, x.v);
    hide Bits;
  }

  lemma {:induction false} ConvertedAgain(h: Host, uns: bool, a: int)
    requires h.bits >= 8 && Fits(h.bits, uns, a)
    ensures Converted(h, uns, Num(a, uns)) == a && WrapTo(h.bits, uns, a) == a
  {
    WrapOfFitting(h.bits, uns, a);
    BitsOfFitting(h.bits, uns, a);
    hide Bits, WrapTo;
  }

  /** Adding r after wrapping q and q * b gives the same number as never wrapping. */
  lemma {:induction false} WrappedSum(p: nat, uns: bool, q: int, b: int, r: int)
    ensures WrapTo(p, uns, WrapTo(p, uns, WrapTo(p, uns, q) * b) + r) == WrapTo(p, uns, q * b + r)
  {
    WrapCong(p, p, uns, q);
    CongMulLeft(p, WrapTo(p, uns, q), q, b);
    WrapCong(p, p, uns, WrapTo(p, uns, q) * b);
    CongAdd(p, WrapTo(p, uns, WrapTo(p, uns, q) * b), q * b, r, r);
  }

  lemma {:induction false} FitsRemainder(p: nat, uns: bool, a: int, b: int)
    requires Fits(p, uns, a) && Fits(p, uns, b) && b != 0
    ensures Fits(p, uns, Remainder(a, b))
  {
    TruncatedQuotient(a, b);
    hide Remainder;
  }

  /** Quotient times divisor plus remainder is the dividend again, and the remainder is smaller than
      the divisor and has the sign of the dividend. */
  lemma {:induction false} DivisionLaw(h: Host, x: Num, y: Num)
    requires Operands(h, x, y) && y.v != 0
    ensures var q, r := BinaryNum(h, Div, x, y).0, BinaryNum(h, Mod, x, y).0;
      ValueOf(h, Add, BinaryNum(h, Mul, q, y).0, r) == Converted(h, x.uns || y.uns, x)
    ensures var r, uns := ValueOf(h, Mod, x, y), x.uns || y.uns;
      && Magnitude(r) < Magnitude(Converted(h, uns, y))
      && (r == 0 || (r < 0) == (Converted(h, uns, x) < 0))
  {
    var uns := x.uns || y.uns;
    var a, b := Converted(h, uns, x), Converted(h, uns, y);
    ConvertedStays(h, uns, x);
    ConvertedStays(h, uns, y);
    TruncatedQuotient(a, b);
    FitsRemainder(h.bits, uns, a, b);
    var q, r := WrapTo(h.bits, uns, Quotient(a, b)), Remainder(a, b);
    assert Quotient(a, b) * b + r == a;
    hide Quotient, Remainder, Magnitude;
    ConvertedAgain(h, uns, r);
    ConvertedAgain(h, uns, a);
    WrapFits(h.bits, uns, Quotient(a, b));
    ConvertedAgain(h, uns, q);
    WrapFits(h.bits, uns, q * b);
    ConvertedAgain(h, uns, WrapTo(h.bits, uns, q * b));
    WrappedSum(h.bits, uns, Quotient(a, b), b, r);
    hide Converted, WrapTo, Fits;
  }

  /** What is subtracted can be added back. */
  lemma {:induction false} SubtractedBack(h: Host, x: Num, y: Num)
    requires Operands(h, x, y)
    ensures ValueOf(h, Add, BinaryNum(h, Sub, x, y).0, y) == Converted(h, x.uns || y.uns, x)
  {
    var uns := x.uns || y.uns;
    var a, b := Converted(h, uns, x), Converted(h, uns, y);
    ConvertedStays(h, uns, x);
    ConvertedAgain(h, uns, a);
    WrappedLeft(h, uns, a - b);
    AddedAfter(h.bits, uns, a - b, b);
    hide Converted, WrapTo, Fits;
  }

  /** A number and its negation add up to 0; negating is subtracting from 0, and is inverting the bits
      and adding 1. */
  lemma {:induction false} NegationLaws(h: Host, x: Num)
    requires h.bits >= 8 && InType(h, x)
    ensures ValueOf(h, Add, UnaryNum(h, Negate, x).0, x) == 0
    ensures ValueOf(h, Sub, Num(0, false), x) == UnaryNum(h, Negate, x).0.v
    ensures ValueOf(h, Add, UnaryNum(h, BitNot, x).0, Num(1, false)) == UnaryNum(h, Negate, x).0.v
  {
    SmallConverted(h, x.uns);
    ConvertedAgain(h, x.uns, x.v);
    WrappedLeft(h, x.uns, -x.v);
    WrappedLeft(h, x.uns, -x.v - 1);
    AddedAfter(h.bits, x.uns, -x.v - 1, 1);
    AddedAfter(h.bits, x.uns, -x.v, x.v);
    hide Converted, WrapTo, Fits, Quotient, Remainder, BitOp, ScaledBy;
  }

  lemma {:induction false} AddedAfter(p: nat, uns: bool, z: int, b: int)
    ensures WrapTo(p, uns, WrapTo(p, uns, z) + b) == WrapTo(p, uns, z + b)
  {
    WrapCong(p, p, uns, z);
    CongAdd(p, WrapTo(p, uns, z), z, b, b);
  }

  lemma {:induction false} WrappedLeft(h: Host, uns: bool, z: int)
    requires h.bits >= 8
    ensures Converted(h, uns, Num(WrapTo(h.bits, uns, z), uns)) == WrapTo(h.bits, uns, z)
  {
    WrapFits(h.bits, uns, z);
    ConvertedAgain(h, uns, WrapTo(h.bits, uns, z));
  }

  lemma {:induction false} SmallConverted(h: Host, uns: bool)
    requires h.bits >= 8
    ensures Converted(h, uns, Num(0, false)) == 0 && Converted(h, uns, Num(1, false)) == 1 && WrapTo(h.bits, uns, 0) == 0
  {
    Pow2Mono(1, h.bits - 1);
    BitsOfFitting(h.bits, false, 0);
    BitsOfFitting(h.bits, false, 1);
    WrapOfFitting(h.bits, uns, 0);
    hide Bits, WrapTo;
  }

  // ----- Whole expressions -----

  function Number(v: int): Exp {
    Int(Num(v, false))
  }

  function Not1(e: Exp): Exp {
    Unary(Not, e)
  }

  /** The same number of the same type, and the same reports in the same order. */
  ghost predicate Same(h: Host, e: Exp, f: Exp) {
    Meaning(h, e) == Meaning(h, f)
  }

  lemma {:induction false} NotIsEqual(h: Host, e: Exp)
    requires h.bits >= 8 && Literals(h, e)
    ensures Same(h, Not1(e), Binary(Eq, e, Number(0)))
  {
    MeaningInType(h, e);
    var x := Meaning(h, e);
    SmallConverted(h, x.0.uns);
    ConvertedStays(h, x.0.uns, x.0);
    assert x.1 + [] + [] == x.1 && x.1 + [] == x.1;
    hide Literals, BitOp, Fits, Bits, Converted;
    assert Meaning(h, Not1(e)) == (Truth(x.0.v == 0), x.1);
    assert Meaning(h, Number(0)) == (Num(0, false), []);
  }

  /** The logical operators are conditionals: the same number, and the same reports of the operands
      evaluated. */
  lemma {:induction false} LogicalIsConditional(h: Host, e: Exp, f: Exp)
    ensures Same(h, AndAnd(e, f), Cond(e, Not1(Not1(f)), Number(0)))
    ensures Same(h, OrOr(e, f), Cond(e, Number(1), Not1(Not1(f))))
  {
    TwiceNegated(h, f);
    var x := Meaning(h, e);
    assert x.1 + [] == x.1;
  }

  lemma {:induction false} TwiceNegated(h: Host, f: Exp)
    ensures Meaning(h, Not1(Not1(f))) == (Truth(Meaning(h, f).0.v != 0), Meaning(h, f).1) && !Unsigned(Not1(Not1(f)))
  {
    var y := Meaning(h, f);
    assert y.1 + [] == y.1;
  }

  /** De Morgan's laws, and a conditional turned round. */
  lemma {:induction false} Negations(h: Host, e: Exp, f: Exp, g: Exp)
    ensures Same(h, Not1(AndAnd(e, f)), OrOr(Not1(e), Not1(f)))
    ensures Same(h, Not1(OrOr(e, f)), AndAnd(Not1(e), Not1(f)))
    ensures Same(h, Cond(Not1(e), f, g), Cond(e, g, f))
  {
    var x, y := Meaning(h, e), Meaning(h, f);
    assert x.1 + [] == x.1 && (x.1 + y.1) + [] == x.1 + y.1 && y.1 + [] == y.1;
  }

  /** An operand that is not called for is not heard of: nothing it divides by zero is reported. */
  lemma {:induction false} Unheard(h: Host, x: Num, f: Exp, g: Exp)
    requires h.bits >= 8
    ensures x.v == 0 ==> Meaning(h, AndAnd(Int(x), f)) == (Num(0, false), [])
    ensures x.v != 0 ==> Meaning(h, OrOr(Int(x), f)) == (Num(1, false), [])
    ensures Meaning(h, Cond(Int(x), f, g)).1 == Meaning(h, if x.v != 0 then f else g).1
    ensures Literals(h, f) && Unsigned(f) == Unsigned(g) && x.v != 0 ==> Same(h, Cond(Int(x), f, g), f)
    ensures Literals(h, g) && Unsigned(f) == Unsigned(g) && x.v == 0 ==> Same(h, Cond(Int(x), f, g), g)
  {
    var chosen := if x.v != 0 then f else g;
    var y := Meaning(h, chosen);
    assert [] + y.1 == y.1;
    if Literals(h, chosen) {
      MeaningInType(h, chosen);
      ConvertedAgain(h, y.0.uns, y.0.v);
    }
    hide Literals, Unsigned, Converted, Fits, BinaryNum, UnaryNum;
  }
}
