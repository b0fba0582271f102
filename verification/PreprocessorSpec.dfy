/** #if expressions (section 6.8.1 of ISO/IEC 9899:1990): what they mean in the arithmetic of
    numbers, evaluating only the operands the operators call for. */
module PreprocessorSpec {
  import opened IntegerTypes

  datatype UnaryOp = Negate | Not | BitNot
  datatype BinaryOp = Mul | Div | Mod | Add | Sub | Shl | Shr | Eq | Ne | Le | Ge | Lt | Gt | BitAnd | BitXor | BitOr

  /** A number of the type long or unsigned long. */
  datatype Num = Num(v: int, uns: bool)

  datatype Exp =
    | Int(x: Num)
    | Unary(uop: UnaryOp, arg: Exp)
    | Binary(op: BinaryOp, l: Exp, r: Exp)
    | AndAnd(l: Exp, r: Exp)
    | OrOr(l: Exp, r: Exp)
    | Cond(c: Exp, l: Exp, r: Exp)
    | Comma(l: Exp, r: Exp)

  datatype Diagnostic = DivisionByZero | Overflow

  /** `bits` is the width of long; overflow is reported only when pedantic. */
  datatype Host = Host(bits: nat, pedantic: bool)

  predicate InType(h: Host, x: Num) {
    Fits(h.bits, x.uns, x.v)
  }

  predicate Literals(h: Host, e: Exp) {
    match e
    case Int(x) => InType(h, x)
    case Unary(_, a) => Literals(h, a)
    case Binary(_, l, r) => Literals(h, l) && Literals(h, r)
    case AndAnd(l, r) => Literals(h, l) && Literals(h, r)
    case OrOr(l, r) => Literals(h, l) && Literals(h, r)
    case Cond(c, l, r) => Literals(h, c) && Literals(h, l) && Literals(h, r)
    case Comma(l, r) => Literals(h, l) && Literals(h, r)
  }

  /** The type of an expression does not depend on what is evaluated. */
  function Unsigned(e: Exp): bool {
    match e
    case Int(x) => x.uns
    case Unary(op, a) => !op.Not? && Unsigned(a)
    case Binary(op, l, r) =>
      (match op
       case Shl => Unsigned(l)
       case Shr => Unsigned(l)
       case Eq => false
       case Ne => false
       case Le => false
       case Ge => false
       case Lt => false
       case Gt => false
       case _ => Unsigned(l) || Unsigned(r))
    case AndAnd(_, _) => false
    case OrOr(_, _) => false
    case Cond(_, l, r) => Unsigned(l) || Unsigned(r)
    case Comma(_, r) => Unsigned(r)
  }

  // ----- Operations on numbers -----

  function Magnitude(a: int): nat {
    if a < 0 then -a else a
  }

  /** Division that truncates toward zero. */
  function Quotient(a: int, b: int): int
    requires b != 0
  {
    var q := Magnitude(a) / Magnitude(b);
    if (a < 0) != (b < 0) then -q else q
  }

  function Remainder(a: int, b: int): int
    requires b != 0
  {
    a - b * Quotient(a, b)
  }

  /** Multiplication by a power of two, positive or negative, rounding down. */
  function ScaledBy(v: int, c: int): int {
    if c >= 0 then v * Pow2(c) else v / Pow2(-c)
  }

  /** The number converted to the common type of the operands. */
  function Converted(h: Host, uns: bool, x: Num): int {
    if uns then Bits(h.bits, x.v) else x.v
  }

  /** The exact result brought into the type; for a signed type that is reported if it changes it. */
  function Fitted(h: Host, uns: bool, z: int): (Num, seq<Diagnostic>) {
    (Num(WrapTo(h.bits, uns, z), uns), if uns || Fits(h.bits, false, z) || !h.pedantic then [] else [Overflow])
  }

  function Truth(b: bool): Num {
    Num(if b then 1 else 0, false)
  }

  function UnaryNum(h: Host, op: UnaryOp, x: Num): (Num, seq<Diagnostic>) {
    match op
    case Negate => Fitted(h, x.uns, -x.v)
    case Not => (Truth(x.v == 0), [])
    case BitNot => (Num(WrapTo(h.bits, x.uns, -x.v - 1), x.uns), [])
  }

  function BinaryNum(h: Host, op: BinaryOp, x: Num, y: Num): (Num, seq<Diagnostic>) {
    var uns := x.uns || y.uns;
    var a, b := Converted(h, uns, x), Converted(h, uns, y);
    var divisor := if b == 0 then 1 else b;
    var zero := if b == 0 then [DivisionByZero] else [];
    match op
    case Mul => Fitted(h, uns, a * b)
    case Div => var r := Fitted(h, uns, Quotient(a, divisor)); (r.0, zero + r.1)
    case Mod => (Num(WrapTo(h.bits, uns, Remainder(a, divisor)), uns), zero)
    case Add => Fitted(h, uns, a + b)
    case Sub => Fitted(h, uns, a - b)
    case Shl => (Num(WrapTo(h.bits, x.uns, ScaledBy(x.v, y.v)), x.uns), [])
    case Shr => (Num(WrapTo(h.bits, x.uns, ScaledBy(x.v, -y.v)), x.uns), [])
    case Eq => (Truth(a == b), [])
    case Ne => (Truth(a != b), [])
    case Le => (Truth(a <= b), [])
    case Ge => (Truth(a >= b), [])
    case Lt => (Truth(a < b), [])
    case Gt => (Truth(a > b), [])
    case BitAnd => (Num(WrapTo(h.bits, uns, BitOp(And, h.bits, a, b)), uns), [])
    case BitXor => (Num(WrapTo(h.bits, uns, BitOp(Xor, h.bits, a, b)), uns), [])
    case BitOr => (Num(WrapTo(h.bits, uns, BitOp(Ior, h.bits, a, b)), uns), [])
  }

  /** The number an expression means, and what is reported of the operands evaluated on the way. */
  function Meaning(h: Host, e: Exp): (Num, seq<Diagnostic>) {
    match e
    case Int(x) => (x, [])
    case Unary(op, a) =>
      var x := Meaning(h, a);
      var r := UnaryNum(h, op, x.0);
      (r.0, x.1 + r.1)
    case Binary(op, l, r) =>
      var x, y := Meaning(h, l), Meaning(h, r);
      var z := BinaryNum(h, op, x.0, y.0);
      (z.0, x.1 + y.1 + z.1)
    case AndAnd(l, r) =>
      var x := Meaning(h, l);
      if x.0.v == 0 then (Truth(false), x.1)
      else var y := Meaning(h, r); (Truth(y.0.v != 0), x.1 + y.1)
    case OrOr(l, r) =>
      var x := Meaning(h, l);
      if x.0.v != 0 then (Truth(true), x.1)
      else var y := Meaning(h, r); (Truth(y.0.v != 0), x.1 + y.1)
    case Cond(c, l, r) =>
      var x := Meaning(h, c);
      var y := if x.0.v != 0 then Meaning(h, l) else Meaning(h, r);
      var uns := Unsigned(l) || Unsigned(r);
      (Num(Converted(h, uns, y.0), uns), x.1 + y.1)
    case Comma(l, r) =>
      var x, y := Meaning(h, l), Meaning(h, r);
      (y.0, x.1 + y.1)
  }

  // ----- Every result is a number of its type -----

  lemma {:induction false} BinaryInType(h: Host, op: BinaryOp, x: Num, y: Num)
    requires h.bits >= 8 && InType(h, x) && InType(h, y)
    ensures InType(h, BinaryNum(h, op, x, y).0)
    ensures BinaryNum(h, op, x, y).0.uns ==
      match op
      case Shl => x.uns
      case Shr => x.uns
      case Eq => false
      case Ne => false
      case Le => false
      case Ge => false
      case Lt => false
      case Gt => false
      case _ => x.uns || y.uns
  {
    hide Quotient, Remainder, ScaledBy, BitOp, Converted;
    TruthInType(h, true);
    TruthInType(h, false);
    hide WrapTo, Fits;
    forall u: bool, v: int ensures Fits(h.bits, u, WrapTo(h.bits, u, v)) {
      WrapFits(h.bits, u, v);
    }
  }

  lemma {:induction false} TruthInType(h: Host, b: bool)
    requires h.bits >= 8
    ensures InType(h, Truth(b))
  {
    Pow2Mono(1, h.bits - 1);
  }

  /** Every meaning is a number of the expression's type. */
  lemma {:induction false} MeaningInType(h: Host, e: Exp)
    requires h.bits >= 8 && Literals(h, e)
    ensures InType(h, Meaning(h, e).0) && Meaning(h, e).0.uns == Unsigned(e)
  {
    hide Fits, Converted, UnaryNum, BinaryNum;
    match e
    case Int(_) =>
    case Unary(op, a) =>
      MeaningInType(h, a);
      UnaryInType(h, op, Meaning(h, a).0);
    case Binary(op, l, r) =>
      MeaningInType(h, l);
      MeaningInType(h, r);
      BinaryInType(h, op, Meaning(h, l).0, Meaning(h, r).0);
    case AndAnd(l, r) =>
      TruthInType(h, false);
      TruthInType(h, true);
    case OrOr(l, r) =>
      TruthInType(h, false);
      TruthInType(h, true);
    case Cond(c, l, r) =>
      MeaningInType(h, l);
      MeaningInType(h, r);
      var uns := Unsigned(l) || Unsigned(r);
      ConvertedInType(h, uns, Meaning(h, l).0);
      ConvertedInType(h, uns, Meaning(h, r).0);
    case Comma(l, r) => MeaningInType(h, r);
  }

  lemma {:induction false} UnaryInType(h: Host, op: UnaryOp, x: Num)
    requires h.bits >= 8 && InType(h, x)
    ensures InType(h, UnaryNum(h, op, x).0) && UnaryNum(h, op, x).0.uns == (!op.Not? && x.uns)
  {
    TruthInType(h, x.v == 0);
    WrapFits(h.bits, x.uns, -x.v);
    WrapFits(h.bits, x.uns, -x.v - 1);
  }

  lemma {:induction false} ConvertedInType(h: Host, uns: bool, x: Num)
    requires h.bits >= 8 && InType(h, x) && (x.uns ==> uns)
    ensures InType(h, Num(Converted(h, uns, x), uns))
  {
  }
}
