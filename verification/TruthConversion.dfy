/** truthvalue_conversion (c-common.c): an integer expression made into a truth value. */
module TruthConversion {
  import opened IntegerTypes
  import opened Trees
  import opened IntegerConversion
  import opened IntegerConversionMeaning

  /** `ne` is build_binary_op (NE_EXPR, a, b, 1). */
  datatype Builder = Builder(t: Target, ne: (Tree, Tree) -> Tree)

  predicate IntegerOnep(e: Tree) {
    match e
    case Cst(_, v) => v == 1
    case Nop(t, a) => t.modeBits == a.ty.modeBits && IntegerOnep(a)
    case _ => false
  }

  function Boolean(b: Builder, v: bool): Tree {
    Cst(b.t.intType, if v then 1 else 0)
  }

  function TruthConvert(b: Builder, e: Tree): Tree {
    var boolType := b.t.intType;
    match e
    case Compare(op, _, l, r) => Compare(op, boolType, l, r)
    case Truth(op, _, l, r) => Truth(op, boolType, l, r)
    case TruthNot(_, a) => TruthNot(boolType, a)
    case Cst(_, v) => Boolean(b, v != 0)
    case Unary(op, _, a) => if op.BitNot? then b.ne(e, Cst(b.t.intType, 0)) else TruthConvert(b, a)
    case Cond(_, c, l, r) => b.t.fold(Cond(boolType, c, TruthConvert(b, l), TruthConvert(b, r)))
    case Nop(t, a) => if t.prec >= a.ty.prec then TruthConvert(b, a) else b.ne(e, Cst(b.t.intType, 0))
    case Binary(op, t, l, r) =>
      if op.LRotate? || op.RRotate? then
        if SideEffects(r) then Compound(boolType, r, TruthConvert(b, l)) else TruthConvert(b, l)
      else if op.Minus? || op.BitXor? then
        if l.ty == r.ty then b.ne(l, r) else b.ne(l, b.t.fold(Nop(l.ty, r)))
      else if op.BitAnd? && IntegerOnep(r) && t != boolType then Nop(boolType, e)
      else b.ne(e, Cst(b.t.intType, 0))
    case _ => b.ne(e, Cst(b.t.intType, 0))
  }

  // ----- What it is given -----

  /** Comparing x with y for inequality evaluates them in order and yields 1 or 0. */
  ghost predicate NeRight(b: Builder, x: Tree, y: Tree, env: Env) {
    && b.ne(x, y).ty == b.t.intType && Wf(b.ne(x, y), env)
    && forall s: int :: Eval(b.ne(x, y), env, s) == NeOutcome(x, y, env, s)
  }

  predicate TruthType(b: Builder) {
    WfType(b.t.intType) && !b.t.intType.uns && HoldsOne(b.t.intType)
  }

  /** fold and build_binary_op do their work on what they are given for e. */
  ghost predicate Builds(b: Builder, e: Tree, env: Env) {
    var zero := Cst(b.t.intType, 0);
    match e
    case Compare(_, _, _, _) => true
    case Truth(_, _, _, _) => true
    case TruthNot(_, _) => true
    case Cst(_, _) => true
    case Unary(op, _, a) => if op.BitNot? then NeRight(b, e, zero, env) else Builds(b, a, env)
    case Cond(_, c, l, r) =>
      Builds(b, l, env) && Builds(b, r, env) && SameFolded(b, Cond(b.t.intType, c, TruthConvert(b, l), TruthConvert(b, r)), env)
    case Nop(t, a) => if t.prec >= a.ty.prec then Builds(b, a, env) else NeRight(b, e, zero, env)
    case Binary(op, t, l, r) =>
      if op.LRotate? || op.RRotate? then Builds(b, l, env)
      else if op.Minus? || op.BitXor? then
        if l.ty == r.ty then NeRight(b, l, r, env)
        else SameFolded(b, Nop(l.ty, r), env) && NeRight(b, l, b.t.fold(Nop(l.ty, r)), env)
      else (op.BitAnd? && IntegerOnep(r) && t != b.t.intType) || NeRight(b, e, zero, env)
    case _ => NeRight(b, e, zero, env)
  }

  ghost predicate SameFolded(b: Builder, x: Tree, env: Env) {
    SameTree(b.t.fold(x), x, env)
  }

  function NeOutcome(x: Tree, y: Tree, env: Env, s: int): Outcome {
    var p := Eval(x, env, s);
    var q := Eval(y, env, p.st);
    Outcome(if p.val != q.val then 1 else 0, q.st)
  }

  /** The order in which the operands are evaluated does not matter (the language leaves it open). */
  ghost predicate Unordered(l: Tree, r: Tree, env: Env) {
    forall s: int ::
      var x := Eval(l, env, s);
      var y := Eval(r, env, s);
      Eval(l, env, y.st).val == x.val && Eval(l, env, y.st).st == Eval(r, env, x.st).st
  }

  /** The types a constant is converted to can hold 1. */
  predicate OnesHold(e: Tree) {
    e.Nop? ==> HoldsOne(e.ty) && OnesHold(e.arg)
  }

  /** Arithmetic is done in the type of its operands, as the front end builds it, and every truth
      operand of a rotation with effects on the count may be evaluated second. */
  ghost predicate SameWidth(e: Tree, env: Env) {
    match e
    case Unary(op, t, a) => a.ty.prec == t.prec && SameWidth(a, env)
    case Cond(_, _, l, r) => SameWidth(l, env) && SameWidth(r, env)
    case Nop(_, a) => SameWidth(a, env)
    case Binary(op, t, l, r) =>
      && (op.Minus? || op.BitXor? || op.LRotate? || op.RRotate? ==> l.ty.prec == t.prec)
      && (op.Minus? || op.BitXor? ==> r.ty.prec == t.prec)
      && (op.LRotate? || op.RRotate? ==> SameWidth(l, env) && (SideEffects(r) ==> Unordered(l, r, env)))
      && (op.BitAnd? ==> HoldsOne(t) && OnesHold(r))
    case _ => true
  }

  // ----- Truth is kept -----

  /** r is the truth value of e. */
  ghost predicate IsTruthOf(r: Tree, e: Tree, b: Builder, env: Env) {
    r.ty == b.t.intType && Wf(r, env) &&
    forall s: int :: Eval(r, env, s) == Outcome(if Eval(e, env, s).val != 0 then 1 else 0, Eval(e, env, s).st)
  }

  lemma {:induction false} NonzeroKept(p: nat, uns: bool, v: int)
    ensures WrapTo(p, uns, v) == 0 <==> Bits(p, v) == 0
  {
  }

  lemma {:induction false} ZeroBits(p: nat, uns: bool, v: int)
    requires Fits(p, uns, v)
    ensures Bits(p, v) == 0 <==> v == 0
  {
    BitsOfFitting(p, uns, v);
  }

  /** Negation, absolute value and find-first-set do not change whether a value is zero. */
  lemma {:induction false} FirstBitZero(p: nat, v: int)
    ensures FirstBit(p, v) == 0 <==> Bits(p, v) == 0
    decreases p
  {
    if p > 0 && v != 0 {
      if v % 2 == 1 {
        OddBits(p, v);
      } else {
        FirstBitZero(p - 1, v / 2);
        EvenBits(p, v / 2);
      }
    } else if v == 0 {
      ModUnique(0, Pow2(p), 0, 0);
    }
  }

  lemma {:induction false} OddBits(p: nat, v: int)
    requires p >= 1 && v % 2 == 1
    ensures Bits(p, v) != 0
  {
    var m := Pow2(p);
    DoubleMultiple(v / m, p);
    assert v == (v / m) * m + v % m;
  }

  lemma {:induction false} EvenBits(p: nat, h: int)
    requires p >= 1
    ensures Bits(p, 2 * h) == 2 * Bits(p - 1, h)
  {
    var m := Pow2(p - 1);
    var k := h / m;
    DoubleMultiple(k, p);
    assert h == k * m + h % m;
    ModUnique(2 * h, Pow2(p), k, 2 * (h % m));
  }

  lemma {:induction false} UnaryNonzero(op: UnaryOp, t: IntType, u: IntType, v: int)
    requires !op.BitNot? && WfType(t) && u.prec == t.prec && InRange(u, v)
    ensures Wrap(t, UnaryValue(op, t, v)) == 0 <==> v == 0
  {
    var p := t.prec;
    var r := UnaryValue(op, t, v);
    NonzeroKept(p, t.uns, r);
    ZeroBits(p, u.uns, v);
    match op
    case Negate => NegatedBits(p, v);
    case Abs => NegatedBits(p, v);
    case Ffs =>
      FirstBitZero(p, v);
      Pow2Exceeds(p);
      ZeroBits(p, true, r);
  }

  lemma {:induction false} NegatedBits(p: nat, v: int)
    ensures Bits(p, -v) == 0 <==> Bits(p, v) == 0
  {
    var m := Pow2(p);
    if Bits(p, v) == 0 {
      assert v == (v / m) * m;
      ModUnique(-v, m, -(v / m), 0);
    }
    if Bits(p, -v) == 0 {
      assert -v == ((-v) / m) * m;
      ModUnique(v, m, -((-v) / m), 0);
    }
  }

  lemma {:induction false} DifferenceNonzero(t: IntType, v: int, w: int, u: IntType)
    requires WfType(t) && u.prec == t.prec && InRange(u, v) && InRange(u, w)
    ensures Wrap(t, v - w) == 0 <==> v == w
  {
    var p := t.prec;
    NonzeroKept(p, t.uns, v - w);
    if Bits(p, v - w) == 0 {
      var k := ModMultiple(v - w, 0, Pow2(p));
      CongBy(p, v, w, k);
      CongWrap(p, u.uns, v, w);
      WrapOfFitting(p, u.uns, v);
      WrapOfFitting(p, u.uns, w);
    }
    ModUnique(0, Pow2(p), 0, 0);
  }

  lemma {:induction false} XorZero(p: nat, v: int, w: int)
    ensures BitOp(Xor, p, v, w) == 0 <==> Cong(p, v, w)
    decreases p
  {
    if p > 0 {
      XorZero(p - 1, v / 2, w / 2);
      if Cong(p, v, w) {
        HalfCong(p, v, w);
      }
      if BitOp(Xor, p, v, w) == 0 {
        var k := ModMultiple(v / 2, w / 2, Pow2(p - 1));
        DoubleMultiple(k, p);
        CongBy(p, v, w, k);
      }
    }
  }

  lemma {:induction false} XorNonzero(t: IntType, v: int, w: int, u: IntType)
    requires WfType(t) && u.prec == t.prec && InRange(u, v) && InRange(u, w)
    ensures Wrap(t, BitOp(Xor, t.prec, v, w)) == 0 <==> v == w
  {
    var p := t.prec;
    var r := BitOp(Xor, p, v, w);
    NonzeroKept(p, t.uns, r);
    ZeroBits(p, true, r);
    XorZero(p, v, w);
    if Cong(p, v, w) {
      CongWrap(p, u.uns, v, w);
      WrapOfFitting(p, u.uns, v);
      WrapOfFitting(p, u.uns, w);
    }
  }

  /** A rotation moves the bits round and loses none. */
  lemma {:induction false} RotateNonzero(t: IntType, u: IntType, v: int, c: int)
    requires WfType(t) && u.prec == t.prec && InRange(u, v)
    ensures Wrap(t, Rotate(t.prec, v, c)) == 0 <==> v == 0
  {
    var p := t.prec;
    var k: nat := c % p;
    var x := Bits(p, v);
    ZeroBits(p, u.uns, v);
    RotatedPieces(p, k, x);
    var r := Rotate(p, v, c);
    NonzeroKept(p, t.uns, r);
    ZeroBits(p, true, r);
  }

  /** With x == q * m + r the rotation is r * a + q, where a * m is the modulus. */
  lemma {:induction false} RotatedPieces(p: nat, k: nat, x: int)
    requires k < p && 0 <= x < Pow2(p)
    ensures 0 <= Bits(p, x * Pow2(k)) + x / Pow2(p - k) < Pow2(p)
    ensures Bits(p, x * Pow2(k)) + x / Pow2(p - k) == 0 <==> x == 0
  {
    var a, m := Pow2(k), Pow2(p - k);
    Pow2Add(k, p - k);
    TurnedRound(x, a, m);
  }

  lemma {:induction false} TurnedRound(x: int, a: int, m: int)
    requires a >= 1 && m >= 1 && 0 <= x < a * m
    ensures 0 <= x * a % (a * m) + x / m < a * m
    ensures x * a % (a * m) + x / m == 0 <==> x == 0
  {
    var q, r := x / m, x % m;
    DivisionParts(x, m, q, r);
    Interchange(q, r, a, m);
    Below(q, r, a, m);
    ModUnique(x * a, a * m, q, r * a);
  }

  lemma {:induction false} DivisionParts(x: int, m: int, q: int, r: int)
    requires m >= 1 && q == x / m && r == x % m
    ensures x == q * m + r && 0 <= r < m
    ensures q == 0 && r == 0 <==> x == 0
  {
    if x == 0 {
      ModUnique(0, m, 0, 0);
    }
  }

  lemma {:induction false} Interchange(q: int, r: int, a: int, m: int)
    ensures (q * m + r) * a == q * (a * m) + r * a
  {
    assert (q * m) * a == q * (a * m);
  }

  lemma {:induction false} Below(q: int, r: int, a: int, m: int)
    requires a >= 1 && m >= 1 && 0 <= r < m && 0 <= q * m + r < a * m
    ensures 0 <= q < a && 0 <= r * a < a * m && r * a + q < a * m && (r * a == 0 <==> r == 0)
  {
    if q >= a {
      Scaled(a, q, m);
    }
    if q <= -1 {
      Scaled(q, -1, m);
    }
    Scaled(r, m - 1, a);
    Scaled(0, r, a);
    if r >= 1 {
      Scaled(1, r, a);
    }
  }

  lemma {:induction false} Scaled(x: int, y: int, m: int)
    requires x <= y && m >= 0
    ensures x * m <= y * m
  {
    assert (y - x) * m >= 0;
  }

  lemma {:induction false} OnepIsOne(e: Tree, env: Env, s: int)
    requires IntegerOnep(e) && Wf(e, env) && OnesHold(e)
    ensures Eval(e, env, s) == Outcome(1, s)
  {
    if e.Nop? {
      OnepIsOne(e.arg, env, s);
      FlagValue(e.ty, true);
    }
  }

  // ----- The conversion -----

  /** A case that compares two operands of one width for inequality. */
  lemma {:induction false} DifferenceTruth(e: Tree, b: Builder, env: Env)
    requires TruthType(b) && Builds(b, e, env) && Wf(e, env) && SameWidth(e, env) && e.Binary? && (e.op.Minus? || e.op.BitXor?)
    ensures IsTruthOf(TruthConvert(b, e), e, b, env)
  {
    hide BitOp, WrapTo;
    var l, r := e.l, e.r;
    var r' := if l.ty == r.ty then r else b.t.fold(Nop(l.ty, r));
    forall s: int
      ensures Eval(TruthConvert(b, e), env, s) == Outcome(if Eval(e, env, s).val != 0 then 1 else 0, Eval(e, env, s).st)
    {
      var x := Eval(l, env, s);
      var y := Eval(r, env, x.st);
      Converted(l, r, r', b, env, x.st);
      assert Eval(TruthConvert(b, e), env, s) == NeOutcome(l, r', env, s);
      DifferenceOfTwo(e.op, e.ty, l.ty, r.ty, x.val, y.val, env) by {
        EvalInRange(l, env, s);
        EvalInRange(r, env, x.st);
      }
    }
    Converted(l, r, r', b, env, 0);
  }

  lemma {:induction false} Converted(l: Tree, r: Tree, r': Tree, b: Builder, env: Env, s: int)
    requires Wf(l, env) && Wf(r, env) && (l.ty == r.ty || SameFolded(b, Nop(l.ty, r), env))
    requires r' == if l.ty == r.ty then r else b.t.fold(Nop(l.ty, r))
    ensures Wf(r', env) && r'.ty == l.ty
    ensures Eval(r', env, s) == Outcome(Wrap(l.ty, Eval(r, env, s).val), Eval(r, env, s).st)
  {
    EvalInRange(r, env, s);
    WrapOfFitting(r.ty.prec, r.ty.uns, Eval(r, env, s).val);
    assert Wf(Nop(l.ty, r), env);
  }

  /** The difference, or exclusive or, of two numbers of one width is zero exactly when the second,
      converted to the type of the first, is the first. */
  lemma {:induction false} DifferenceOfTwo(op: BinaryOp, t: IntType, u: IntType, w: IntType, v: int, x: int, env: Env)
    requires op.Minus? || op.BitXor?
    requires WfType(t) && WfType(u) && u.prec == t.prec == w.prec && InRange(u, v) && InRange(w, x)
    ensures Wrap(t, BinaryValue(env, op, t, v, x)) == 0 <==> v == Wrap(u, x)
  {
    var p := t.prec;
    var y := Wrap(u, x);
    WrapFits(p, u.uns, x);
    WrapCong(p, p, u.uns, x);
    if op.Minus? {
      CongAdd(p, v, v, x, y);
      CongWrap(p, t.uns, v - x, v - y);
      DifferenceNonzero(t, v, y, u);
    } else {
      BitOpCong(Xor, p, v, v, x, y);
      XorNonzero(t, v, y, u);
    }
  }

  /** A rotation, whose count may be evaluated first. */
  lemma {:induction false} RotationTruth(e: Tree, b: Builder, env: Env)
    requires TruthType(b) && Builds(b, e, env) && Wf(e, env) && SameWidth(e, env) && e.Binary? && (e.op.LRotate? || e.op.RRotate?)
    requires IsTruthOf(TruthConvert(b, e.l), e.l, b, env)
    ensures IsTruthOf(TruthConvert(b, e), e, b, env)
  {
    var l, r := e.l, e.r;
    assert SideEffects(r) ==> Unordered(l, r, env);
    forall s: int
      ensures Eval(TruthConvert(b, e), env, s) == Outcome(if Eval(e, env, s).val != 0 then 1 else 0, Eval(e, env, s).st)
    {
      hide *;
      Rotated(e, env, s);
      RotationOperands(e, b, env, s);
      var x := Eval(l, env, s);
      if SideEffects(r) {
        Swapped(l, r, env, s);
        TruthAt(l, b, env, Eval(r, env, s).st);
      } else {
        NoEffects(r, env, x.st);
        TruthAt(l, b, env, s);
      }
    }
  }

  lemma {:induction false} TruthAt(e: Tree, b: Builder, env: Env, s: int)
    requires IsTruthOf(TruthConvert(b, e), e, b, env)
    ensures Eval(TruthConvert(b, e), env, s) == Outcome(if Eval(e, env, s).val != 0 then 1 else 0, Eval(e, env, s).st)
  {
  }

  lemma {:induction false} RotationOperands(e: Tree, b: Builder, env: Env, s: int)
    requires e.Binary? && (e.op.LRotate? || e.op.RRotate?)
    ensures Eval(TruthConvert(b, e), env, s) == Eval(TruthConvert(b, e.l), env, if SideEffects(e.r) then Eval(e.r, env, s).st else s)
  {
  }

  lemma {:induction false} Rotated(e: Tree, env: Env, s: int)
    requires Wf(e, env) && SameWidth(e, env) && e.Binary? && (e.op.LRotate? || e.op.RRotate?)
    ensures Eval(e, env, s).val != 0 <==> Eval(e.l, env, s).val != 0
    ensures Eval(e, env, s).st == Eval(e.r, env, Eval(e.l, env, s).st).st
  {
    hide Rotate, WrapTo, Fits, Unordered, TruthValued;
    var x := Eval(e.l, env, s);
    var y := Eval(e.r, env, x.st);
    EvalInRange(e.l, env, s);
    RotateNonzero(e.ty, e.l.ty, x.val, if e.op.LRotate? then y.val else -y.val);
  }

  lemma {:induction false} Swapped(l: Tree, r: Tree, env: Env, s: int)
    requires Unordered(l, r, env)
    ensures var y := Eval(r, env, s);
      Eval(l, env, y.st).val == Eval(l, env, s).val && Eval(l, env, y.st).st == Eval(r, env, Eval(l, env, s).st).st
  {
  }

  lemma {:induction false} UnaryTruth(e: Tree, b: Builder, env: Env)
    requires TruthType(b) && Builds(b, e, env) && Wf(e, env) && SameWidth(e, env) && e.Unary? && !e.uop.BitNot?
    requires IsTruthOf(TruthConvert(b, e.arg), e.arg, b, env)
    ensures IsTruthOf(TruthConvert(b, e), e, b, env)
  {
    hide WrapTo, UnaryValue;
    forall s: int
      ensures Eval(TruthConvert(b, e), env, s) == Outcome(if Eval(e, env, s).val != 0 then 1 else 0, Eval(e, env, s).st)
    {
      EvalInRange(e.arg, env, s);
      UnaryNonzero(e.uop, e.ty, e.arg.ty, Eval(e.arg, env, s).val);
    }
  }

  /** A conversion to at least as many bits keeps nonzero values nonzero. */
  lemma {:induction false} WideningTruth(e: Tree, b: Builder, env: Env)
    requires TruthType(b) && Builds(b, e, env) && Wf(e, env) && e.Nop? && e.ty.prec >= e.arg.ty.prec
    requires IsTruthOf(TruthConvert(b, e.arg), e.arg, b, env)
    ensures IsTruthOf(TruthConvert(b, e), e, b, env)
  {
    forall s: int
      ensures Eval(TruthConvert(b, e), env, s) == Outcome(if Eval(e, env, s).val != 0 then 1 else 0, Eval(e, env, s).st)
    {
      var v := Eval(e.arg, env, s).val;
      EvalInRange(e.arg, env, s);
      NonzeroKept(e.ty.prec, e.ty.uns, v);
      ZeroBits(e.arg.ty.prec, e.arg.ty.uns, v);
      WidenedZero(e.arg.ty.prec, e.ty.prec, v);
    }
  }

  lemma {:induction false} WidenedZero(p: nat, q: nat, v: int)
    requires p <= q
    ensures Bits(q, v) == 0 ==> Bits(p, v) == 0
    ensures v == 0 ==> Bits(q, v) == 0
  {
    ModUnique(0, Pow2(p), 0, 0);
    ModUnique(0, Pow2(q), 0, 0);
    if Cong(q, v, 0) {
      CongLower(p, q, v, 0);
    }
  }

  /** Where nothing better is known, or the operation is a mask with 1. */
  lemma {:induction false} PlainTruth(e: Tree, b: Builder, env: Env)
    requires TruthType(b) && Builds(b, e, env) && Wf(e, env) && SameWidth(e, env)
    requires if e.Binary? && e.op.BitAnd? && IntegerOnep(e.r) && e.ty != b.t.intType then TruthConvert(b, e) == Nop(b.t.intType, e)
             else TruthConvert(b, e) == b.ne(e, Cst(b.t.intType, 0)) && NeRight(b, e, Cst(b.t.intType, 0), env)
    ensures IsTruthOf(TruthConvert(b, e), e, b, env)
  {
    hide WrapTo, BitOp;
    FlagValue(b.t.intType, false);
    ZeroFits(b.t.intType);
    forall s: int
      ensures Eval(TruthConvert(b, e), env, s) == Outcome(if Eval(e, env, s).val != 0 then 1 else 0, Eval(e, env, s).st)
    {
      if e.Binary? && e.op.BitAnd? && IntegerOnep(e.r) && e.ty != b.t.intType {
        var x := Eval(e.l, env, s);
        OnepIsOne(e.r, env, x.st);
        OnesMasked(e.ty, x.val);
        FlagValue(b.t.intType, x.val % 2 == 1);
      }
    }
  }

  lemma {:induction false} ZeroFits(t: IntType)
    requires WfType(t)
    ensures InRange(t, 0)
  {
  }

  lemma {:induction false} RetypedTruth(e: Tree, b: Builder, env: Env)
    requires TruthType(b) && Builds(b, e, env) && Wf(e, env) && (e.Compare? || e.Truth? || e.TruthNot?)
    ensures IsTruthOf(TruthConvert(b, e), e, b, env)
  {
    hide Flag;
    FlagValue(e.ty, true);
    FlagValue(e.ty, false);
    FlagValue(b.t.intType, true);
    FlagValue(b.t.intType, false);
  }

  lemma {:induction false} CondTruth(e: Tree, b: Builder, env: Env)
    requires TruthType(b) && Builds(b, e, env) && Wf(e, env) && e.Cond?
    requires IsTruthOf(TruthConvert(b, e.l), e.l, b, env) && IsTruthOf(TruthConvert(b, e.r), e.r, b, env)
    ensures IsTruthOf(TruthConvert(b, e), e, b, env)
  {
    var c := Cond(b.t.intType, e.c, TruthConvert(b, e.l), TruthConvert(b, e.r));
    assert Wf(c, env);
    assert TruthConvert(b, e) == b.t.fold(c);
  }

  /** The tree returned is 1 exactly when the original is nonzero and 0 otherwise, with the original
      side effects, and has the type of truth values. */
  lemma {:induction false} TruthMeans(e: Tree, b: Builder, env: Env)
    requires TruthType(b) && Builds(b, e, env) && Wf(e, env) && SameWidth(e, env)
    ensures IsTruthOf(TruthConvert(b, e), e, b, env)
  {
    hide SameFolded, NeRight, IsTruthOf, TruthValued, Unordered;
    match e
    case Compare(_, _, _, _) => RetypedTruth(e, b, env);
    case Truth(_, _, _, _) => RetypedTruth(e, b, env);
    case TruthNot(_, _) => RetypedTruth(e, b, env);
    case Cst(_, v) => ConstantTruth(e, b, env);
    case Leaf(_, _, _) => PlainTruth(e, b, env);
    case Compound(_, _, _) => PlainTruth(e, b, env);
    case Unary(op, _, a) =>
      if op.BitNot? {
        PlainTruth(e, b, env);
      } else {
        TruthMeans(a, b, env);
        UnaryTruth(e, b, env);
      }
    case Cond(_, _, l, r) =>
      TruthMeans(l, b, env);
      TruthMeans(r, b, env);
      CondTruth(e, b, env);
    case Nop(t, a) =>
      if t.prec >= a.ty.prec {
        TruthMeans(a, b, env);
        WideningTruth(e, b, env);
      } else {
        PlainTruth(e, b, env);
      }
    case Binary(op, _, l, _) =>
      if op.LRotate? || op.RRotate? {
        TruthMeans(l, b, env);
        RotationTruth(e, b, env);
      } else if op.Minus? || op.BitXor? {
        DifferenceTruth(e, b, env);
      } else {
        PlainTruth(e, b, env);
      }
  }

  lemma {:induction false} ConstantTruth(e: Tree, b: Builder, env: Env)
    requires TruthType(b) && Builds(b, e, env) && Wf(e, env) && e.Cst?
    ensures IsTruthOf(TruthConvert(b, e), e, b, env)
  {
    FlagValue(b.t.intType, true);
    FlagValue(b.t.intType, false);
  }

  // ----- A builder that meets what is asked -----

  function PlainBuilder(word: nat): Builder {
    Builder(PlainTarget(word), (x: Tree, y: Tree) => Compare(Ne, PlainTarget(word).intType, x, y))
  }

  lemma {:induction false} PlainNe(word: nat, x: Tree, y: Tree, env: Env)
    requires Wf(x, env) && Wf(y, env)
    ensures NeRight(PlainBuilder(word), x, y, env)
  {
    FlagValue(PlainTarget(word).intType, true);
    FlagValue(PlainTarget(word).intType, false);
    hide Flag;
  }

  /** One that only makes comparisons, and folds nothing, meets it for every expression. */
  lemma {:induction false} PlainBuilds(word: nat, e: Tree, env: Env)
    requires Wf(e, env) && SameWidth(e, env)
    ensures TruthType(PlainBuilder(word)) && Builds(PlainBuilder(word), e, env)
  {
    var b := PlainBuilder(word);
    var zero := Cst(b.t.intType, 0);
    ZeroFits(b.t.intType);
    hide NeRight, SameWidth, Unordered, TruthValued, IsTruthOf;
    PlainNe(word, e, zero, env);
    match e
    case Unary(op, _, a) =>
      if !op.BitNot? {
        PlainOperand(e, a, env);
        PlainBuilds(word, a, env);
      }
    case Nop(_, a) =>
      PlainOperand(e, a, env);
      PlainBuilds(word, a, env);
    case Cond(_, c, l, r) =>
      PlainOperand(e, l, env);
      PlainOperand(e, r, env);
      PlainBuilds(word, l, env);
      PlainBuilds(word, r, env);
      PlainCond(b, e, env);
    case Binary(op, _, l, r) =>
      if op.LRotate? || op.RRotate? {
        PlainOperand(e, l, env);
        PlainBuilds(word, l, env);
      } else {
        PlainNe(word, l, r, env);
        PlainNe(word, l, Nop(l.ty, r), env);
      }
    case _ =>
  }

  lemma {:induction false} PlainOperand(e: Tree, a: Tree, env: Env)
    requires Wf(e, env) && SameWidth(e, env)
    requires match e
      case Unary(_, _, x) => a == x
      case Nop(_, x) => a == x
      case Cond(_, _, l, r) => a == l || a == r
      case Binary(op, _, l, _) => (op.LRotate? || op.RRotate?) && a == l
      case _ => false
    ensures Wf(a, env) && SameWidth(a, env)
  {
  }

  lemma {:induction false} PlainCond(b: Builder, e: Tree, env: Env)
    requires e.Cond? && Wf(e, env) && SameWidth(e, env) && TruthType(b) && Builds(b, e.l, env) && Builds(b, e.r, env)
    requires forall x: Tree :: b.t.fold(x) == x
    ensures SameFolded(b, Cond(b.t.intType, e.c, TruthConvert(b, e.l), TruthConvert(b, e.r)), env)
  {
    TruthMeans(e.l, b, env);
    TruthMeans(e.r, b, env);
    hide TruthConvert, Builds, SameWidth;
  }
}
