/** The actions of cexp.c: every operand is evaluated, in longs, and a counter holds back the
    reports of operands that are not called for. */
module PreprocessorEvaluation {
  import opened IntegerTypes
  import opened PreprocessorSpec
  import opened PreprocessorOverflow

  /** struct constant */
  datatype Constant = Constant(value: int, unsignedp: bool)

  /** A number as the evaluator holds it. */
  function Stored(h: Host, x: Num): Constant {
    Constant(Long(h.bits, x.v), x.uns)
  }

  ghost predicate Holds(h: Host, a: Constant, x: Num) {
    h.bits >= 8 && InType(h, x) && a == Stored(h, x)
  }

  /** (unsigned long) v */
  function UnsignedLong(h: Host, v: int): int {
    Bits(h.bits, v)
  }

  function LeftShift(h: Host, a: Constant, b: nat): int {
    if b >= h.bits then 0
    else if a.unsignedp then Long(h.bits, UnsignedLong(h, a.value) * Pow2(b))
    else Long(h.bits, a.value * Pow2(b))
  }

  function RightShift(h: Host, a: Constant, b: nat): int
    requires h.bits >= 1
  {
    if b >= h.bits then if a.unsignedp then 0 else a.value / Pow2(h.bits - 1)
    else if a.unsignedp then Long(h.bits, UnsignedLong(h, a.value) / Pow2(b))
    else a.value / Pow2(b)
  }

  function Flag(b: bool): Constant {
    Constant(if b then 1 else 0, false)
  }

  // ----- Stored numbers -----

  lemma {:induction false} StoredIs(h: Host, a: Constant, x: Num)
    requires Holds(h, a, x)
    ensures Fits(h.bits, false, a.value) && Cong(h.bits, a.value, x.v)
    ensures !x.uns ==> a.value == x.v
    ensures x.uns ==> UnsignedLong(h, a.value) == x.v
    ensures a.value == 0 <==> x.v == 0
  {
    WrapFits(h.bits, false, x.v);
    WrapCong(h.bits, h.bits, false, x.v);
    if x.uns {
      BitsOfFitting(h.bits, true, x.v);
      BitsOfFitting(h.bits, false, a.value);
    } else {
      WrapOfFitting(h.bits, false, x.v);
    }
  }

  /** Operands converted to their common type. */
  lemma {:induction false} ConvertedIs(h: Host, uns: bool, a: Constant, x: Num)
    requires Holds(h, a, x) && (x.uns ==> uns)
    ensures var c := Converted(h, uns, x);
      && c == (if uns then UnsignedLong(h, a.value) else a.value) && Cong(h.bits, a.value, c)
      && (a.value == 0 <==> c == 0) && Fits(h.bits, uns, c)
  {
    StoredIs(h, a, x);
    BitsCong(h.bits, a.value);
    BitsOfFitting(h.bits, false, a.value);
  }

  /** Storing a result that was wrapped in its type. */
  lemma {:induction false} StoreWrapped(h: Host, uns: bool, z: int, w: int)
    requires h.bits >= 8 && Cong(h.bits, z, w)
    ensures Long(h.bits, WrapTo(h.bits, uns, z)) == Long(h.bits, w)
  {
    WrapWrap(h.bits, false, h.bits, uns, z);
    CongWrap(h.bits, false, z, w);
  }

  lemma {:induction false} StoreTruth(h: Host, b: bool)
    requires h.bits >= 8
    ensures Stored(h, Truth(b)) == Flag(b)
  {
    TruthInType(h, b);
    WrapOfFitting(h.bits, false, if b then 1 else 0);
  }

  // ----- Each operator -----

  /** The result of an action is the number meant, and the two tests for a report agree. */
  ghost predicate Agrees(h: Host, r: Constant, overflow: bool, zero: bool, z: (Num, seq<Diagnostic>)) {
    r == Stored(h, z.0) && z.1 == (if zero then [DivisionByZero] else []) + if overflow && h.pedantic then [Overflow] else []
  }

  lemma {:induction false} FittedAgrees(h: Host, uns: bool, z: int, w: int, test: bool)
    requires h.bits >= 8 && Cong(h.bits, z, w) && (!uns ==> (test <==> !Fits(h.bits, false, z)))
    ensures Agrees(h, Constant(Long(h.bits, w), uns), !uns && test, false, Fitted(h, uns, z))
  {
    StoreWrapped(h, uns, z, w);
    hide Fits, WrapTo, Long;
    var none: seq<Diagnostic> := [];
    assert none + [Overflow] == [Overflow];
  }

  lemma {:induction false} NegateAgrees(h: Host, a: Constant, x: Num)
    requires Holds(h, a, x)
    ensures var v := Long(h.bits, -a.value);
      Agrees(h, Constant(v, a.unsignedp), !a.unsignedp && NegateTest(h.bits, a.value, v), false, UnaryNum(h, Negate, x))
  {
    StoredIs(h, a, x);
    CongAdd(h.bits, 0, 0, x.v, a.value);
    NegateExact(h.bits, a.value);
    FittedAgrees(h, x.uns, -x.v, -a.value, NegateTest(h.bits, a.value, Long(h.bits, -a.value)));
  }

  lemma {:induction false} BitNotAgrees(h: Host, a: Constant, x: Num)
    requires Holds(h, a, x)
    ensures Agrees(h, Constant(-a.value - 1, a.unsignedp), false, false, UnaryNum(h, PreprocessorSpec.BitNot, x))
  {
    StoredIs(h, a, x);
    CongAdd(h.bits, -1, -1, x.v, a.value);
    StoreWrapped(h, x.uns, -x.v - 1, -a.value - 1);
    WrapOfFitting(h.bits, false, -a.value - 1);
  }

  lemma {:induction false} MultiplyAgrees(h: Host, a: Constant, b: Constant, x: Num, y: Num)
    requires Holds(h, a, x) && Holds(h, b, y)
    ensures var uns := a.unsignedp || b.unsignedp;
      var v := if uns then Long(h.bits, UnsignedLong(h, a.value) * UnsignedLong(h, b.value)) else Long(h.bits, a.value * b.value);
      Agrees(h, Constant(v, uns), !uns && MultiplyTest(h.bits, a.value, b.value, v), false, BinaryNum(h, Mul, x, y))
  {
    var uns := x.uns || y.uns;
    ConvertedIs(h, uns, a, x);
    ConvertedIs(h, uns, b, y);
    MultiplyExactIfSigned(h, uns, a, b, x, y);
    var c, d := Converted(h, uns, x), Converted(h, uns, y);
    FittedAgrees(h, uns, c * d, c * d, MultiplyTest(h.bits, a.value, b.value, Long(h.bits, a.value * b.value)));
    hide Fitted, Agrees, Long, MultiplyTest, Holds;
  }

  lemma {:induction false} MultiplyExactIfSigned(h: Host, uns: bool, a: Constant, b: Constant, x: Num, y: Num)
    requires Holds(h, a, x) && Holds(h, b, y)
    ensures MultiplyTest(h.bits, a.value, b.value, Long(h.bits, a.value * b.value)) <==> !Fits(h.bits, false, a.value * b.value)
  {
    StoredIs(h, a, x);
    StoredIs(h, b, y);
    hide Holds;
    MultiplyExact(h.bits, a.value, b.value);
  }

  lemma {:induction false} AddAgrees(h: Host, a: Constant, b: Constant, x: Num, y: Num)
    requires Holds(h, a, x) && Holds(h, b, y)
    ensures var uns := a.unsignedp || b.unsignedp;
      var v := Long(h.bits, a.value + b.value);
      Agrees(h, Constant(v, uns), !uns && AddTest(h.bits, a.value, b.value, v), false, BinaryNum(h, Add, x, y))
  {
    var uns := x.uns || y.uns;
    ConvertedIs(h, uns, a, x);
    ConvertedIs(h, uns, b, y);
    StoredIs(h, a, x);
    StoredIs(h, b, y);
    AddExact(h.bits, a.value, b.value);
    var c, d := Converted(h, uns, x), Converted(h, uns, y);
    CongAdd(h.bits, c, a.value, d, b.value);
    FittedAgrees(h, uns, c + d, a.value + b.value, AddTest(h.bits, a.value, b.value, Long(h.bits, a.value + b.value)));
    hide Fitted, Agrees, Long, AddTest, Holds;
  }

  lemma {:induction false} SubtractAgrees(h: Host, a: Constant, b: Constant, x: Num, y: Num)
    requires Holds(h, a, x) && Holds(h, b, y)
    ensures var uns := a.unsignedp || b.unsignedp;
      var v := Long(h.bits, a.value - b.value);
      Agrees(h, Constant(v, uns), !uns && SubtractTest(h.bits, a.value, b.value, v), false, BinaryNum(h, Sub, x, y))
  {
    var uns := x.uns || y.uns;
    ConvertedIs(h, uns, a, x);
    ConvertedIs(h, uns, b, y);
    StoredIs(h, a, x);
    StoredIs(h, b, y);
    SubtractExact(h.bits, a.value, b.value);
    var c, d := Converted(h, uns, x), Converted(h, uns, y);
    CongAdd(h.bits, c, a.value, d, b.value);
    FittedAgrees(h, uns, c - d, a.value - b.value, SubtractTest(h.bits, a.value, b.value, Long(h.bits, a.value - b.value)));
    hide Fitted, Agrees, Long, SubtractTest, Holds;
  }

  lemma {:induction false} UnsignedQuotient(a: int, b: int)
    requires a >= 0 && b > 0
    ensures Quotient(a, b) == a / b && Remainder(a, b) == a % b
  {
    assert a == b * (a / b) + a % b;
  }

  /** Division by zero is reported and goes on with 1. */
  lemma {:induction false} DivideAgrees(h: Host, a: Constant, b: Constant, x: Num, y: Num)
    requires Holds(h, a, x) && Holds(h, b, y)
    ensures var uns := a.unsignedp || b.unsignedp;
      var d := if b.value == 0 then 1 else b.value;
      && (uns ==> UnsignedLong(h, d) > 0)
      && var v := if uns then Long(h.bits, UnsignedLong(h, a.value) / UnsignedLong(h, d)) else Long(h.bits, Quotient(a.value, d));
         Agrees(h, Constant(v, uns), !uns && DivideTest(h.bits, a.value, d, v), b.value == 0, BinaryNum(h, Div, x, y))
  {
    var uns := x.uns || y.uns;
    var d := if b.value == 0 then 1 else b.value;
    var c, e := Converted(h, uns, x), if b.value == 0 then 1 else Converted(h, uns, y);
    DivisorIs(h, uns, b, y);
    ConvertedIs(h, uns, a, x);
    StoredIs(h, a, x);
    DivideExact(h.bits, a.value, d);
    if uns {
      UnsignedQuotient(c, e);
    }
    FittedAgrees(h, uns, Quotient(c, e), Quotient(c, e), DivideTest(h.bits, a.value, d, Long(h.bits, Quotient(a.value, d))));
    hide Fits, Long, DivideTest, Holds, Quotient;
  }

  lemma {:induction false} DivisorIs(h: Host, uns: bool, b: Constant, y: Num)
    requires Holds(h, b, y) && (y.uns ==> uns)
    ensures var d, e := if b.value == 0 then 1 else b.value, if b.value == 0 then 1 else Converted(h, uns, y);
      && d != 0 && e != 0 && Fits(h.bits, false, d) && e == (if uns then UnsignedLong(h, d) else d) && (uns ==> e > 0)
      && (b.value == 0 <==> Converted(h, uns, y) == 0)
  {
    ConvertedIs(h, uns, b, y);
    StoredIs(h, b, y);
    TruthInType(h, true);
    BitsOfFitting(h.bits, false, 1);
  }

  lemma {:induction false} ModuloAgrees(h: Host, a: Constant, b: Constant, x: Num, y: Num)
    requires Holds(h, a, x) && Holds(h, b, y)
    ensures var uns := a.unsignedp || b.unsignedp;
      var d := if b.value == 0 then 1 else b.value;
      && (uns ==> UnsignedLong(h, d) > 0)
      && var v := if uns then Long(h.bits, UnsignedLong(h, a.value) % UnsignedLong(h, d)) else Long(h.bits, Remainder(a.value, d));
         Agrees(h, Constant(v, uns), false, b.value == 0, BinaryNum(h, Mod, x, y))
  {
    var uns := x.uns || y.uns;
    var c, e := Converted(h, uns, x), if b.value == 0 then 1 else Converted(h, uns, y);
    DivisorIs(h, uns, b, y);
    ConvertedIs(h, uns, a, x);
    if uns {
      UnsignedQuotient(c, e);
    }
    StoreWrapped(h, uns, Remainder(c, e), Remainder(c, e));
    hide Fits, Long, Holds, Remainder, Quotient;
  }

  lemma {:induction false} CompareAgrees(h: Host, op: BinaryOp, a: Constant, b: Constant, x: Num, y: Num)
    requires Holds(h, a, x) && Holds(h, b, y)
    ensures Agrees(h, Flag(a.value == b.value), false, false, BinaryNum(h, Eq, x, y))
    ensures Agrees(h, Flag(a.value != b.value), false, false, BinaryNum(h, Ne, x, y))
    ensures var uns := a.unsignedp || b.unsignedp;
      var c, d := if uns then UnsignedLong(h, a.value) else a.value, if uns then UnsignedLong(h, b.value) else b.value;
      && Agrees(h, Flag(c <= d), false, false, BinaryNum(h, Le, x, y)) && Agrees(h, Flag(c >= d), false, false, BinaryNum(h, Ge, x, y))
      && Agrees(h, Flag(c < d), false, false, BinaryNum(h, Lt, x, y)) && Agrees(h, Flag(c > d), false, false, BinaryNum(h, Gt, x, y))
  {
    var uns := x.uns || y.uns;
    ConvertedIs(h, uns, a, x);
    ConvertedIs(h, uns, b, y);
    StoredIs(h, a, x);
    StoredIs(h, b, y);
    BitsOfFitting(h.bits, false, a.value);
    BitsOfFitting(h.bits, false, b.value);
    StoreTruth(h, true);
    StoreTruth(h, false);
    hide Converted, Holds, Stored, Quotient, Remainder, ScaledBy, Fitted, BitOp, Truth;
  }

  lemma {:induction false} BitwiseAgrees(h: Host, a: Constant, b: Constant, x: Num, y: Num)
    requires Holds(h, a, x) && Holds(h, b, y)
    ensures var uns := a.unsignedp || b.unsignedp;
      && Agrees(h, Constant(LongAnd(h.bits, a.value, b.value), uns), false, false, BinaryNum(h, BitAnd, x, y))
      && Agrees(h, Constant(LongXor(h.bits, a.value, b.value), uns), false, false, BinaryNum(h, BitXor, x, y))
      && Agrees(h, Constant(LongOr(h.bits, a.value, b.value), uns), false, false, BinaryNum(h, BitOr, x, y))
  {
    var uns := x.uns || y.uns;
    ConvertedIs(h, uns, a, x);
    ConvertedIs(h, uns, b, y);
    var c, d := Converted(h, uns, x), Converted(h, uns, y);
    forall f: Bitwise {:trigger BitOp(f, h.bits, c, d)}
      ensures Long(h.bits, WrapTo(h.bits, uns, BitOp(f, h.bits, c, d))) == Long(h.bits, BitOp(f, h.bits, a.value, b.value))
    {
      BitOpCong(f, h.bits, a.value, c, b.value, d);
      StoreWrapped(h, uns, BitOp(f, h.bits, c, d), BitOp(f, h.bits, c, d));
    }
    hide Converted, Long, BitOp, WrapTo, Holds;
  }

  /** A shift by the whole width or more leaves the sign only. */
  lemma {:induction false} ShiftedAway(n: nat, v: int, c: nat)
    requires n >= 1 && c >= n
    ensures Long(n, v * Pow2(c)) == 0
    ensures 0 <= v < Pow2(n) ==> v / Pow2(c) == 0
    ensures Fits(n, false, v) ==> v / Pow2(c) == v / Pow2(n - 1) && Fits(n, false, v / Pow2(n - 1))
  {
    Pow2Add(c - n, n);
    Regroup(v, Pow2(c - n), Pow2(n));
    CongBy(n, v * Pow2(c), 0, v * Pow2(c - n));
    WrapOfFitting(n, false, 0);
    CongWrap(n, false, v * Pow2(c), 0);
    Pow2Mono(n, c);
    Floor(v, Pow2(c));
    Floor(v, Pow2(n - 1));
  }

  lemma {:induction false} Floor(v: int, m: int)
    requires m >= 1
    ensures 0 <= v < m ==> v / m == 0
    ensures -m <= v < 0 ==> v / m == -1
    ensures v >= 0 ==> 0 <= v / m <= v
    ensures v < 0 ==> v <= v / m < 0
  {
    var q := v / m;
    assert v == q * m + v % m;
    NotBelow(q, m);
    ExactFloor(v, m, q);
  }

  lemma {:induction false} ExactFloor(v: int, m: int, q: int)
    requires m >= 1 && q * m <= v < q * m + m
    ensures 0 <= v < m ==> q == 0
    ensures -m <= v < 0 ==> q == -1
    ensures v >= 0 ==> 0 <= q <= v
    ensures v < 0 ==> v <= q < 0
  {
    assert q >= 1 ==> q * m >= m && q * m >= q;
    assert q <= -1 ==> q * m <= -m && q * m <= q;
    assert q <= -2 ==> q * m <= -2 * m;
  }

  lemma {:induction false} LeftShiftIs(h: Host, a: Constant, x: Num, c: nat)
    requires Holds(h, a, x)
    ensures Stored(h, Num(WrapTo(h.bits, x.uns, ScaledBy(x.v, c)), x.uns)) == Constant(LeftShift(h, a, c), a.unsignedp)
  {
    StoredIs(h, a, x);
    StoreWrapped(h, x.uns, ScaledBy(x.v, c), ScaledBy(x.v, c));
    if c >= h.bits {
      ShiftedAway(h.bits, x.v, c);
    }
    hide Long, Holds;
  }

  lemma {:induction false} RightShiftIs(h: Host, a: Constant, x: Num, c: nat)
    requires Holds(h, a, x)
    ensures Stored(h, Num(WrapTo(h.bits, x.uns, ScaledBy(x.v, 0 - c)), x.uns)) == Constant(RightShift(h, a, c), a.unsignedp)
  {
    StoredIs(h, a, x);
    var z := x.v / Pow2(c);
    StoreWrapped(h, x.uns, z, z);
    assert Pow2(0) == 1;
    assert ScaledBy(x.v, 0 - c) == z;
    if c >= h.bits {
      ShiftedAway(h.bits, x.v, c);
      WrapOfFitting(h.bits, false, 0);
    }
    if !x.uns {
      Floor(x.v, Pow2(c));
      WrapOfFitting(h.bits, false, z);
    }
    hide Long, Holds, ScaledBy;
  }

  /** How far the actions for << and >> shift, and which way. */
  lemma {:induction false} ShiftCount(h: Host, b: Constant, y: Num)
    requires Holds(h, b, y)
    ensures b.value < 0 && !b.unsignedp ==> y.v < 0 && UnsignedLong(h, Long(h.bits, -b.value)) == -y.v
    ensures !(b.value < 0 && !b.unsignedp) ==> y.v >= 0 && UnsignedLong(h, b.value) == y.v
  {
    StoredIs(h, b, y);
    if b.value < 0 && !b.unsignedp {
      BitsCong(h.bits, -b.value);
      WrapCong(h.bits, h.bits, false, -b.value);
      BitsOfFitting(h.bits, true, -b.value);
    } else if !b.unsignedp {
      BitsOfFitting(h.bits, false, b.value);
    }
  }

  lemma {:induction false} ShiftAgrees(h: Host, a: Constant, b: Constant, x: Num, y: Num)
    requires Holds(h, a, x) && Holds(h, b, y)
    ensures var back, c, d := b.value < 0 && !b.unsignedp, UnsignedLong(h, Long(h.bits, -b.value)), UnsignedLong(h, b.value);
      && Agrees(h, Constant(if back then RightShift(h, a, c) else LeftShift(h, a, d), a.unsignedp), false, false, BinaryNum(h, Shl, x, y))
      && Agrees(h, Constant(if back then LeftShift(h, a, c) else RightShift(h, a, d), a.unsignedp), false, false, BinaryNum(h, Shr, x, y))
  {
    ShiftCount(h, b, y);
    if b.value < 0 && !b.unsignedp {
      LeftShiftIs(h, a, x, -y.v);
      RightShiftIs(h, a, x, -y.v);
    } else {
      LeftShiftIs(h, a, x, y.v);
      RightShiftIs(h, a, x, y.v);
    }
    hide LeftShift, RightShift, ScaledBy, Long, WrapTo, UnsignedLong, Holds, BitOp, Fitted, Quotient, Remainder;
  }

  // ----- The evaluator -----

  class Evaluator {
    const h: Host
    /** skip_evaluation: how many enclosing operators do not call for the operand in hand. */
    var skip: int
    var reports: seq<Diagnostic>

    constructor (h: Host)
      ensures this.h == h && skip == 0 && reports == []
    {
      this.h := h;
      skip, reports := 0, [];
    }

    function Heard(d: seq<Diagnostic>): seq<Diagnostic>
      reads this
    {
      if skip == 0 then d else []
    }

    method IntegerOverflow()
      modifies this`reports
      ensures reports == old(reports) + Heard(if h.pedantic then [Overflow] else [])
    {
      if skip == 0 && h.pedantic {
        reports := reports + [Overflow];
      }
    }

    method UnaryAction(op: UnaryOp, a: Constant, ghost x: Num) returns (r: Constant)
      requires Holds(h, a, x)
      modifies this`reports
      ensures r == Stored(h, UnaryNum(h, op, x).0) && reports == old(reports) + Heard(UnaryNum(h, op, x).1)
    {
      hide Holds, Stored, Long, NegateTest, Fitted;
      match op
      case Negate =>
        NegateAgrees(h, a, x);
        r := Constant(Long(h.bits, -a.value), a.unsignedp);
        if NegateTest(h.bits, a.value, r.value) && !a.unsignedp {
          IntegerOverflow();
        }
      case Not =>
        StoredIs(h, a, x);
        StoreTruth(h, a.value == 0) by { BitsEnough(h, a, x); }
        r := Flag(a.value == 0);
      case BitNot =>
        BitNotAgrees(h, a, x);
        r := Constant(-a.value - 1, a.unsignedp);
    }

    /** The divisor; a report if it is zero. */
    method Divisor(b: Constant) returns (d: int)
      modifies this`reports
      ensures d == if b.value == 0 then 1 else b.value
      ensures reports == old(reports) + Heard(if b.value == 0 then [DivisionByZero] else [])
    {
      d := b.value;
      if b.value == 0 {
        if skip == 0 {
          reports := reports + [DivisionByZero];
        }
        d := 1;
      }
    }

    method Arithmetic(op: BinaryOp, a: Constant, b: Constant, ghost x: Num, ghost y: Num) returns (r: Constant)
      requires Holds(h, a, x) && Holds(h, b, y) && (op.Mul? || op.Add? || op.Sub?)
      modifies this`reports
      ensures r == Stored(h, BinaryNum(h, op, x, y).0) && reports == old(reports) + Heard(BinaryNum(h, op, x, y).1)
    {
      hide Holds, Stored, Long, BinaryNum, MultiplyTest, AddTest, SubtractTest, UnsignedLong;
      var uns := a.unsignedp || b.unsignedp;
      match op
      case Mul =>
        MultiplyAgrees(h, a, b, x, y);
        r := Constant(if uns then Long(h.bits, UnsignedLong(h, a.value) * UnsignedLong(h, b.value)) else Long(h.bits, a.value * b.value), uns);
        if !uns && MultiplyTest(h.bits, a.value, b.value, r.value) {
          IntegerOverflow();
        }
      case Add =>
        AddAgrees(h, a, b, x, y);
        r := Constant(Long(h.bits, a.value + b.value), uns);
        if !uns && AddTest(h.bits, a.value, b.value, r.value) {
          IntegerOverflow();
        }
      case Sub =>
        SubtractAgrees(h, a, b, x, y);
        r := Constant(Long(h.bits, a.value - b.value), uns);
        if !uns && SubtractTest(h.bits, a.value, b.value, r.value) {
          IntegerOverflow();
        }
    }

    method Division(op: BinaryOp, a: Constant, b: Constant, ghost x: Num, ghost y: Num) returns (r: Constant)
      requires Holds(h, a, x) && Holds(h, b, y) && (op.Div? || op.Mod?)
      modifies this`reports
      ensures r == Stored(h, BinaryNum(h, op, x, y).0) && reports == old(reports) + Heard(BinaryNum(h, op, x, y).1)
    {
      DivideAgrees(h, a, b, x, y);
      ModuloAgrees(h, a, b, x, y);
      hide Holds, Stored, Long, BinaryNum, DivideTest, UnsignedLong, Quotient, Remainder;
      var uns := a.unsignedp || b.unsignedp;
      var d := Divisor(b);
      if op.Div? {
        r := Constant(if uns then Long(h.bits, UnsignedLong(h, a.value) / UnsignedLong(h, d)) else Long(h.bits, Quotient(a.value, d)), uns);
        if !uns && DivideTest(h.bits, a.value, d, r.value) {
          IntegerOverflow();
        }
      } else {
        r := Constant(if uns then Long(h.bits, UnsignedLong(h, a.value) % UnsignedLong(h, d)) else Long(h.bits, Remainder(a.value, d)), uns);
      }
    }

    method BinaryAction(op: BinaryOp, a: Constant, b: Constant, ghost x: Num, ghost y: Num) returns (r: Constant)
      requires Holds(h, a, x) && Holds(h, b, y)
      modifies this`reports
      ensures r == Stored(h, BinaryNum(h, op, x, y).0) && reports == old(reports) + Heard(BinaryNum(h, op, x, y).1)
    {
      if op.Mul? || op.Add? || op.Sub? {
        r := Arithmetic(op, a, b, x, y);
        return;
      }
      if op.Div? || op.Mod? {
        r := Division(op, a, b, x, y);
        return;
      }
      assert h.bits >= 1;
      CompareAgrees(h, op, a, b, x, y);
      BitwiseAgrees(h, a, b, x, y);
      ShiftAgrees(h, a, b, x, y);
      hide Holds, Stored, Long, BinaryNum, UnsignedLong, LeftShift, RightShift, LongAnd, LongOr, LongXor, Flag;
      var uns := a.unsignedp || b.unsignedp;
      var c, d := if uns then UnsignedLong(h, a.value) else a.value, if uns then UnsignedLong(h, b.value) else b.value;
      match op
      case Shl =>
        if b.value < 0 && !b.unsignedp {
          r := Constant(RightShift(h, a, UnsignedLong(h, Long(h.bits, -b.value))), a.unsignedp);
        } else {
          r := Constant(LeftShift(h, a, UnsignedLong(h, b.value)), a.unsignedp);
        }
      case Shr =>
        if b.value < 0 && !b.unsignedp {
          r := Constant(LeftShift(h, a, UnsignedLong(h, Long(h.bits, -b.value))), a.unsignedp);
        } else {
          r := Constant(RightShift(h, a, UnsignedLong(h, b.value)), a.unsignedp);
        }
      case Eq => r := Flag(a.value == b.value);
      case Ne => r := Flag(a.value != b.value);
      case Le => r := Flag(c <= d);
      case Ge => r := Flag(c >= d);
      case Lt => r := Flag(c < d);
      case Gt => r := Flag(c > d);
      case BitAnd => r := Constant(LongAnd(h.bits, a.value, b.value), uns);
      case BitXor => r := Constant(LongXor(h.bits, a.value, b.value), uns);
      case BitOr => r := Constant(LongOr(h.bits, a.value, b.value), uns);
    }

    /** The actions for an expression, in the order the parser performs them: the counter is left as
        it was, the value is the one meant, and the reports are those of the operands called for. */
    method Evaluate(e: Exp) returns (r: Constant)
      requires h.bits >= 8 && Literals(h, e) && skip >= 0
      modifies this
      ensures skip == old(skip)
      ensures r == Stored(h, Meaning(h, e).0)
      ensures reports == old(reports) + Heard(Meaning(h, e).1)
      decreases e
    {
      hide Stored, UnaryNum, BinaryNum, Fits, Truth, Flag, Converted;
      match e
      case Int(x) => r := Stored(h, x);
      case Unary(op, arg) =>
        var a := Evaluate(arg);
        MeaningHeld(h, arg, a);
        r := UnaryAction(op, a, Meaning(h, arg).0);
      case Binary(op, l, m) =>
        var a := Evaluate(l);
        var b := Evaluate(m);
        MeaningHeld(h, l, a);
        MeaningHeld(h, m, b);
        r := BinaryAction(op, a, b, Meaning(h, l).0, Meaning(h, m).0);
      case AndAnd(_, _) => r := EvaluateLogical(e);
      case OrOr(_, _) => r := EvaluateLogical(e);
      case Cond(c, l, m) =>
        r := EvaluateCond(e);
      case Comma(l, m) =>
        var a := Evaluate(l);
        r := Evaluate(m);
    }

    method EvaluateLogical(e: Exp) returns (r: Constant)
      requires h.bits >= 8 && Literals(h, e) && skip >= 0 && (e.AndAnd? || e.OrOr?)
      modifies this
      ensures skip == old(skip)
      ensures r == Stored(h, Meaning(h, e).0)
      ensures reports == old(reports) + Heard(Meaning(h, e).1)
      decreases e, 0
    {
      hide Stored, UnaryNum, BinaryNum, Fits, Truth, Flag, Converted;
      var a := Evaluate(e.l);
      MeaningHeld(h, e.l, a);
      var known := (a.value == 0) == e.AndAnd?;
      skip := skip + if known then 1 else 0;
      var b := Evaluate(e.r);
      MeaningHeld(h, e.r, b);
      skip := skip - if known then 1 else 0;
      r := Flag(if e.AndAnd? then a.value != 0 && b.value != 0 else a.value != 0 || b.value != 0);
      StoreTruth(h, true);
      StoreTruth(h, false);
    }

    method EvaluateCond(e: Exp) returns (r: Constant)
      requires h.bits >= 8 && Literals(h, e) && skip >= 0 && e.Cond?
      modifies this
      ensures skip == old(skip)
      ensures r == Stored(h, Meaning(h, e).0)
      ensures reports == old(reports) + Heard(Meaning(h, e).1)
      decreases e, 0
    {
      hide Stored, UnaryNum, BinaryNum, Fits, Truth, Flag, Converted;
      var c := Evaluate(e.c);
      MeaningHeld(h, e.c, c);
      skip := skip + if c.value == 0 then 1 else 0;
      var a := Evaluate(e.l);
      MeaningHeld(h, e.l, a);
      skip := skip + (if c.value != 0 then 1 else 0) - (if c.value == 0 then 1 else 0);
      var b := Evaluate(e.r);
      MeaningHeld(h, e.r, b);
      skip := skip - if c.value != 0 then 1 else 0;
      r := Constant(if c.value != 0 then a.value else b.value, a.unsignedp || b.unsignedp);
      ChosenIs(h, e.l, a, e.r, b);
    }
  }

  lemma {:induction false} BitsEnough(h: Host, a: Constant, x: Num)
    requires Holds(h, a, x)
    ensures h.bits >= 8
  {
  }

  lemma {:induction false} MeaningHeld(h: Host, e: Exp, a: Constant)
    requires h.bits >= 8 && Literals(h, e) && a == Stored(h, Meaning(h, e).0)
    ensures Holds(h, a, Meaning(h, e).0) && a.unsignedp == Unsigned(e)
    ensures a.value == 0 <==> Meaning(h, e).0.v == 0
  {
    MeaningInType(h, e);
    StoredIs(h, a, Meaning(h, e).0);
  }

  /** Whichever operand of ?: is chosen, its bits are the result in the common type. */
  lemma {:induction false} ChosenIs(h: Host, l: Exp, a: Constant, r: Exp, b: Constant)
    requires Holds(h, a, Meaning(h, l).0) && Holds(h, b, Meaning(h, r).0)
    requires a.unsignedp == Unsigned(l) && b.unsignedp == Unsigned(r)
    ensures var uns := Unsigned(l) || Unsigned(r);
      && Constant(a.value, uns) == Stored(h, Num(Converted(h, uns, Meaning(h, l).0), uns))
      && Constant(b.value, uns) == Stored(h, Num(Converted(h, uns, Meaning(h, r).0), uns))
  {
    var uns := Unsigned(l) || Unsigned(r);
    ChosenOne(h, uns, a, Meaning(h, l).0);
    ChosenOne(h, uns, b, Meaning(h, r).0);
  }

  lemma {:induction false} ChosenOne(h: Host, uns: bool, a: Constant, x: Num)
    requires Holds(h, a, x) && (x.uns ==> uns)
    ensures Constant(a.value, uns) == Stored(h, Num(Converted(h, uns, x), uns))
  {
    StoredIs(h, a, x);
    ConvertedIs(h, uns, a, x);
    WrapOfFitting(h.bits, false, a.value);
    CongWrap(h.bits, false, a.value, Converted(h, uns, x));
  }
}
