/** Integer expression trees of the C front end, what they compute, and the helpers of tree.c that
    strip conversions from them. */
module Trees {
  import opened IntegerTypes
  import opened Extensions

  datatype UnaryOp = Negate | BitNot | Abs | Ffs
  datatype BinaryOp =
    | Plus | Minus | Mult | MinOp | MaxOp | BitAnd | BitIor | BitXor | BitAndtc
    | LShift | RShift | LRotate | RRotate | Other(code: nat)
  datatype CompareOp = Eq | Ne | Lt | Gt | Le | Ge
  datatype TruthOp = TruthAnd | TruthAndif | TruthOr | TruthOrif | TruthXor

  /** `Leaf` is any expression whose inside is not looked at; `effects` is TREE_SIDE_EFFECTS. */
  datatype Tree =
    | Cst(ty: IntType, val: int)
    | Leaf(ty: IntType, id: nat, effects: bool)
    | Nop(ty: IntType, arg: Tree)
    | Unary(uop: UnaryOp, ty: IntType, arg: Tree)
    | Binary(op: BinaryOp, ty: IntType, l: Tree, r: Tree)
    | Compare(cop: CompareOp, ty: IntType, l: Tree, r: Tree)
    | Truth(top: TruthOp, ty: IntType, l: Tree, r: Tree)
    | TruthNot(ty: IntType, arg: Tree)
    | Cond(ty: IntType, c: Tree, l: Tree, r: Tree)
    | Compound(ty: IntType, l: Tree, r: Tree)

  function Size(e: Tree): (n: nat)
    ensures n >= 1
  {
    match e
    case Cst(_, _) => 1
    case Leaf(_, _, _) => 1
    case Nop(_, a) => 1 + Size(a)
    case Unary(_, _, a) => 1 + Size(a)
    case Binary(_, _, l, r) => 1 + Size(l) + Size(r)
    case Compare(_, _, l, r) => 1 + Size(l) + Size(r)
    case Truth(_, _, l, r) => 1 + Size(l) + Size(r)
    case TruthNot(_, a) => 1 + Size(a)
    case Cond(_, c, l, r) => 1 + Size(c) + Size(l) + Size(r)
    case Compound(_, l, r) => 1 + Size(l) + Size(r)
  }

  /** TREE_SIDE_EFFECTS. */
  predicate SideEffects(e: Tree) {
    match e
    case Cst(_, _) => false
    case Leaf(_, _, effects) => effects
    case Nop(_, a) => SideEffects(a)
    case Unary(_, _, a) => SideEffects(a)
    case Binary(_, _, l, r) => SideEffects(l) || SideEffects(r)
    case Compare(_, _, l, r) => SideEffects(l) || SideEffects(r)
    case Truth(_, _, l, r) => SideEffects(l) || SideEffects(r)
    case TruthNot(_, a) => SideEffects(a)
    case Cond(_, c, l, r) => SideEffects(c) || SideEffects(l) || SideEffects(r)
    case Compound(_, l, r) => SideEffects(l) || SideEffects(r)
  }

  // ----- Evaluation -----

  /** What leaves and uninterpreted operations do; the program state is a number. */
  datatype Env = Env(read: (nat, int) -> int, act: (nat, int) -> int, other: (nat, int, int) -> int)

  datatype Outcome = Outcome(val: int, st: int)

  function FirstBit(p: nat, v: int): (r: nat)
    ensures r <= p
  {
    if p == 0 || v == 0 then 0
    else if v % 2 == 1 then 1
    else var r := FirstBit(p - 1, v / 2); if r == 0 then 0 else 1 + r
  }

  function UnaryValue(op: UnaryOp, t: IntType, v: int): int {
    match op
    case Negate => -v
    case BitNot => -v - 1
    case Abs => if v < 0 then -v else v
    case Ffs => FirstBit(t.prec, v)
  }

  /** Rotation of the p low bits of v to the left by c places. */
  function Rotate(p: nat, v: int, c: int): int {
    if p == 0 then 0
    else
      var k: nat := c % p;
      Bits(p, Bits(p, v) * Pow2(k)) + Bits(p, v) / Pow2(p - k)
  }

  function ShiftLeft(v: int, c: int): int {
    if c >= 0 then v * Pow2(c) else v
  }

  function ShiftRight(v: int, c: int): int {
    if c >= 0 then v / Pow2(c) else v
  }

  function BinaryValue(env: Env, op: BinaryOp, t: IntType, v: int, w: int): int {
    match op
    case Plus => v + w
    case Minus => v - w
    case Mult => v * w
    case MinOp => if w < v then w else v
    case MaxOp => if v < w then w else v
    case BitAnd => BitOp(And, t.prec, v, w)
    case BitIor => BitOp(Ior, t.prec, v, w)
    case BitXor => BitOp(Xor, t.prec, v, w)
    case BitAndtc => BitOp(Andtc, t.prec, v, w)
    case LShift => ShiftLeft(v, w)
    case RShift => ShiftRight(v, w)
    case LRotate => Rotate(t.prec, v, w)
    case RRotate => Rotate(t.prec, v, -w)
    case Other(code) => env.other(code, v, w)
  }

  predicate Holds(op: CompareOp, v: int, w: int) {
    match op
    case Eq => v == w
    case Ne => v != w
    case Lt => v < w
    case Gt => v > w
    case Le => v <= w
    case Ge => v >= w
  }

  function Flag(t: IntType, b: bool): int {
    Wrap(t, if b then 1 else 0)
  }

  function Eval(e: Tree, env: Env, s: int): Outcome {
    match e
    case Cst(_, v) => Outcome(v, s)
    case Leaf(t, id, effects) => Outcome(Wrap(t, env.read(id, s)), if effects then env.act(id, s) else s)
    case Nop(t, a) => var x := Eval(a, env, s); Outcome(Wrap(t, x.val), x.st)
    case Unary(op, t, a) => var x := Eval(a, env, s); Outcome(Wrap(t, UnaryValue(op, t, x.val)), x.st)
    case Binary(op, t, l, r) =>
      var x := Eval(l, env, s);
      var y := Eval(r, env, x.st);
      Outcome(Wrap(t, BinaryValue(env, op, t, x.val, y.val)), y.st)
    case Compare(op, t, l, r) =>
      var x := Eval(l, env, s);
      var y := Eval(r, env, x.st);
      Outcome(Flag(t, Holds(op, x.val, y.val)), y.st)
    case Truth(op, t, l, r) =>
      var x := Eval(l, env, s);
      var y := Eval(r, env, x.st);
      var p, q := x.val != 0, y.val != 0;
      (match op
       case TruthAnd => Outcome(Flag(t, p && q), y.st)
       case TruthOr => Outcome(Flag(t, p || q), y.st)
       case TruthXor => Outcome(Flag(t, p != q), y.st)
       case TruthAndif => if p then Outcome(Flag(t, q), y.st) else Outcome(Flag(t, false), x.st)
       case TruthOrif => if p then Outcome(Flag(t, true), x.st) else Outcome(Flag(t, q), y.st))
    case TruthNot(t, a) => var x := Eval(a, env, s); Outcome(Flag(t, x.val == 0), x.st)
    case Cond(t, c, l, r) =>
      var x := Eval(c, env, s);
      if x.val != 0 then Eval(l, env, x.st) else Eval(r, env, x.st)
    case Compound(t, l, r) => Eval(r, env, Eval(l, env, s).st)
  }

  /** An expression marked as free of side effects changes nothing. */
  lemma {:induction false} NoEffects(e: Tree, env: Env, s: int)
    requires !SideEffects(e)
    ensures Eval(e, env, s).st == s
  {
    match e
    case Cst(_, _) =>
    case Leaf(_, _, _) =>
    case Nop(_, a) => NoEffects(a, env, s);
    case Unary(_, _, a) => NoEffects(a, env, s);
    case Binary(_, _, l, r) => NoEffects(l, env, s); NoEffects(r, env, s);
    case Compare(_, _, l, r) => NoEffects(l, env, s); NoEffects(r, env, s);
    case Truth(_, _, l, r) => NoEffects(l, env, s); NoEffects(r, env, s);
    case TruthNot(_, a) => NoEffects(a, env, s);
    case Cond(_, c, l, r) => NoEffects(c, env, s); NoEffects(l, env, s); NoEffects(r, env, s);
    case Compound(_, l, r) => NoEffects(l, env, s); NoEffects(r, env, s);
  }

  // ----- Well-formed trees -----

  /** A truth value: 1 or 0, or -1 in a one-bit signed type. */
  ghost predicate TruthValued(e: Tree, env: Env) {
    forall s: int :: -1 <= Eval(e, env, s).val <= 1
  }

  /** The typing rules of trees: constants fit their types, the arms of ?: and the second operand of
      a comma have the type of the whole, logical operations work on truth values, and a constant
      shift count is not negative (section 6.3.7 leaves that undefined). */
  ghost predicate Wf(e: Tree, env: Env) {
    WfType(e.ty) &&
    match e
    case Cst(t, v) => InRange(t, v)
    case Leaf(_, _, _) => true
    case Nop(_, a) => Wf(a, env)
    case Unary(_, _, a) => Wf(a, env)
    case Binary(op, _, l, r) => Wf(l, env) && Wf(r, env) && ((op.LShift? || op.RShift?) && r.Cst? ==> r.val >= 0)
    case Compare(_, t, l, r) => Wf(l, env) && Wf(r, env)
    case Truth(_, t, l, r) => Wf(l, env) && Wf(r, env) && TruthValued(l, env) && TruthValued(r, env)
    case TruthNot(t, a) => Wf(a, env) && TruthValued(a, env)
    case Cond(t, c, l, r) => l.ty == t && r.ty == t && Wf(c, env) && Wf(l, env) && Wf(r, env)
    case Compound(t, l, r) => r.ty == t && Wf(l, env) && Wf(r, env)
  }

  /** The type can hold 1 (every type but a one-bit signed bit-field). */
  predicate HoldsOne(t: IntType) {
    t.uns || t.prec >= 2
  }

  lemma {:induction false} FlagValue(t: IntType, b: bool)
    requires WfType(t)
    ensures InRange(t, Flag(t, b)) && (Flag(t, b) != 0 <==> b)
    ensures HoldsOne(t) ==> Flag(t, b) == if b then 1 else 0
  {
    WrapFits(t.prec, t.uns, if b then 1 else 0);
    WrapOfFitting(t.prec, true, if b then 1 else 0);
  }

  lemma {:induction false} OnesMasked(t: IntType, v: int)
    requires WfType(t) && HoldsOne(t)
    ensures Wrap(t, BitOp(And, t.prec, v, 1)) == v % 2
  {
    MaskedOne(t.prec, v);
    FlagValue(t, true);
    FlagValue(t, false);
  }

  /** A well-formed tree evaluates to a value of its type. */
  lemma {:induction false} EvalInRange(e: Tree, env: Env, s: int)
    requires Wf(e, env)
    ensures InRange(e.ty, Eval(e, env, s).val)
  {
    match e
    case Cst(_, _) =>
    case Leaf(t, id, _) => WrapFits(t.prec, t.uns, env.read(id, s));
    case Nop(t, a) => WrapFits(t.prec, t.uns, Eval(a, env, s).val);
    case Unary(op, t, a) => WrapFits(t.prec, t.uns, UnaryValue(op, t, Eval(a, env, s).val));
    case Binary(op, t, l, r) =>
      var x := Eval(l, env, s);
      WrapFits(t.prec, t.uns, BinaryValue(env, op, t, x.val, Eval(r, env, x.st).val));
    case Compare(_, t, _, _) => FlagValue(t, true); FlagValue(t, false);
    case Truth(_, t, _, _) => FlagValue(t, true); FlagValue(t, false);
    case TruthNot(t, _) => FlagValue(t, true); FlagValue(t, false);
    case Cond(_, c, l, r) =>
      var x := Eval(c, env, s);
      EvalInRange(l, env, x.st);
      EvalInRange(r, env, x.st);
    case Compound(_, l, r) => EvalInRange(r, env, Eval(l, env, s).st);
  }

  // ----- get_unwidened -----

  /** The loop of get_unwidened: `op` is the conversion looked at, `win` the best tree found, `uns`
      whether a zero-extension has been stripped, `final` the precision wanted. */
  function UnwidenFrom(op: Tree, win: Tree, uns: bool, final: nat): (r: Tree)
    ensures Size(r) <= Size(win) || Size(r) <= Size(op)
    decreases op
  {
    if !op.Nop? then win
    else
      var inner := op.arg;
      if op.ty.prec < inner.ty.prec && final > op.ty.prec then win
      else if op.ty.prec > inner.ty.prec then
        if (uns || inner.Nop?) && inner.ty.uns then UnwidenFrom(inner, inner, true, final)
        else UnwidenFrom(inner, if !uns || final <= inner.ty.prec then inner else win, uns, final)
      else UnwidenFrom(inner, win, uns, final)
  }

  function Unwiden(op: Tree, final: nat): (r: Tree)
    ensures Size(r) <= Size(op)
  {
    UnwidenFrom(op, op, final > op.ty.prec && op.ty.uns, final)
  }

  /** The same as get_unwidened computes it. */
  method GetUnwidened(expr: Tree, final: nat) returns (win: Tree)
    ensures win == Unwiden(expr, final)
  {
    var op := expr;
    var uns := final > op.ty.prec && op.ty.uns;
    win := op;
    while op.Nop?
      invariant UnwidenFrom(op, win, uns, final) == Unwiden(expr, final)
      decreases op
    {
      var bitsChange := op.ty.prec - op.arg.ty.prec;
      if bitsChange < 0 && final > op.ty.prec {
        break;
      }
      op := op.arg;
      if bitsChange > 0 {
        if !uns || final <= op.ty.prec {
          win := op;
        }
        if (uns || op.Nop?) && op.ty.uns {
          uns := true;
          win := op;
        }
      }
    }
  }

  /** What is known of the conversion looked at, when the whole is known to be `v`: while it is at
      least `final` bits wide it agrees with v; once narrower, v is its zero- or sign-extension. */
  ghost predicate Looking(op: Tree, uns: bool, final: nat, v: int, w: int) {
    if op.ty.prec >= final then Cong(final, v, w)
    else if uns then 2 * Bits(op.ty.prec, w) < Pow2(op.ty.prec) ==> Cong(final, v, Bits(op.ty.prec, w))
    else op.Nop? || !op.ty.uns ==> Cong(final, v, WrapTo(op.ty.prec, false, w))
  }

  lemma {:induction false} LookInside(op: Tree, uns: bool, final: nat, v: int, env: Env, s: int)
    requires op.Nop? && Wf(op, env) && Looking(op, uns, final, v, Eval(op, env, s).val)
    requires !(op.ty.prec < op.arg.ty.prec && final > op.ty.prec)
    ensures op.ty.prec <= op.arg.ty.prec ==> Looking(op.arg, uns, final, v, Eval(op.arg, env, s).val)
    ensures op.ty.prec > op.arg.ty.prec && ((uns || op.arg.Nop?) && op.arg.ty.uns) ==>
      Cong(final, v, Eval(op.arg, env, s).val) && Looking(op.arg, true, final, v, Eval(op.arg, env, s).val)
    ensures op.ty.prec > op.arg.ty.prec && !((uns || op.arg.Nop?) && op.arg.ty.uns) ==>
      (!uns || final <= op.arg.ty.prec ==> Cong(final, v, Eval(op.arg, env, s).val)) &&
      Looking(op.arg, uns, final, v, Eval(op.arg, env, s).val)
  {
    var inner := op.arg;
    var p, q := op.ty.prec, inner.ty.prec;
    var w, x := Eval(op, env, s).val, Eval(inner, env, s).val;
    EvalInRange(inner, env, s);
    if p >= final {
      WrapCong(p, final, op.ty.uns, x);
      WideLook(op, inner, uns, final, v, x);
    } else if q == p {
      WrapCong(p, p, op.ty.uns, x);
      CongWrap(p, false, w, x);
    } else {
      NarrowLook(op, inner, uns, final, v, x);
    }
  }

  /** Entering from at least `final` bits. */
  lemma {:induction false} WideLook(op: Tree, inner: Tree, uns: bool, final: nat, v: int, x: int)
    requires WfType(inner.ty) && InRange(inner.ty, x) && Cong(final, v, x)
    ensures uns || !inner.Nop? || !inner.ty.uns || inner.ty.prec >= final ==> Looking(inner, uns, final, v, x)
    ensures inner.ty.uns ==> Looking(inner, true, final, v, x)
  {
    var q := inner.ty.prec;
    if q < final {
      BitsOfFitting(q, inner.ty.uns, x);
      WrapOfFitting(q, inner.ty.uns, x);
      assert Pow2(q) == 2 * Pow2(q - 1);
    }
  }

  /** Entering an extension that is itself narrower than `final`. */
  lemma {:induction false} NarrowLook(op: Tree, inner: Tree, uns: bool, final: nat, v: int, x: int)
    requires op.Nop? && WfType(op.ty) && WfType(inner.ty) && inner.ty.prec < op.ty.prec < final && InRange(inner.ty, x)
    requires Looking(op, uns, final, v, Wrap(op.ty, x))
    ensures !uns ==> Cong(final, v, x)
    ensures uns && inner.ty.uns ==> Cong(final, v, x)
    ensures uns ==> Looking(inner, true, final, v, x)
    ensures !uns && (!inner.Nop? || !inner.ty.uns) ==> Looking(inner, false, final, v, x)
    ensures !uns && inner.ty.uns ==> Looking(inner, true, final, v, x)
  {
    var p, q := op.ty.prec, inner.ty.prec;
    WrapCong(p, p, op.ty.uns, x);
    FitsWider(q, inner.ty.uns, p, false, x);
    WrapOfFitting(p, false, x);
    CongWrap(p, false, Wrap(op.ty, x), x);
    if !uns {
      WideLook(op, inner, uns, final, v, x);
    } else {
      BitsOfFitting(p, false, x);
      BitsOfFitting(q, inner.ty.uns, x);
      Pow2Mono(q, p - 1);
      Pow2Mono(q - 1, p - 1);
      if inner.ty.uns {
        WideLook(op, inner, uns, final, v, x);
      }
    }
  }

  lemma {:induction false} UnwidenFromKeeps(op: Tree, win: Tree, uns: bool, final: nat, v: int, st: int, env: Env, s: int)
    requires Wf(op, env) && Wf(win, env)
    requires Cong(final, v, Eval(win, env, s).val) && Eval(win, env, s).st == st && Eval(op, env, s).st == st
    requires Looking(op, uns, final, v, Eval(op, env, s).val)
    ensures var r := UnwidenFrom(op, win, uns, final);
      Cong(final, v, Eval(r, env, s).val) && Eval(r, env, s).st == st
    decreases op
  {
    if op.Nop? && !(op.ty.prec < op.arg.ty.prec && final > op.ty.prec) {
      var inner := op.arg;
      LookInside(op, uns, final, v, env, s);
      if op.ty.prec > inner.ty.prec {
        if (uns || inner.Nop?) && inner.ty.uns {
          UnwidenFromKeeps(inner, inner, true, final, v, st, env, s);
        } else {
          UnwidenFromKeeps(inner, if !uns || final <= inner.ty.prec then inner else win, uns, final, v, st, env, s);
        }
      } else {
        UnwidenFromKeeps(inner, win, uns, final, v, st, env, s);
      }
    }
  }

  /** get_unwidened keeps the value as far as the precision asked for goes, and all effects. */
  lemma {:induction false} UnwidenKeeps(op: Tree, final: nat, env: Env, s: int)
    requires Wf(op, env)
    ensures var r := Unwiden(op, final);
      Cong(final, Eval(op, env, s).val, Eval(r, env, s).val) && Eval(r, env, s).st == Eval(op, env, s).st
  {
    EvalInRange(op, env, s);
    WideLook(op, op, final > op.ty.prec && op.ty.uns, final, Eval(op, env, s).val, Eval(op, env, s).val);
    UnwidenFromKeeps(op, op, final > op.ty.prec && op.ty.uns, final, Eval(op, env, s).val, Eval(op, env, s).st, env, s);
  }

  // ----- What the front end builds -----

  /** The guard of MULT_EXPR, MIN_EXPR and MAX_EXPR in convert_to_integer: the stripped operands fit
      the output precision and extend alike. */
  predicate Undistorted(final: nat, e: Tree)
    requires e.Binary?
  {
    var arg0, arg1 := Unwiden(e.l, final), Unwiden(e.r, final);
    final >= arg0.ty.prec && final >= arg1.ty.prec && arg0.ty.uns == arg1.ty.uns
  }

  /** What is inside all conversions, and what they do to its value together. */
  function Base(op: Tree): Tree {
    if op.Nop? then Base(op.arg) else op
  }

  function ShapeOf(op: Tree): Shape {
    if op.Nop? then Retyped(ShapeOf(op.arg), op.ty) else ShapeOfType(op.ty)
  }

  /** MIN_EXPR and MAX_EXPR survive narrowing to `final` bits: they are not narrowed, or the low bits
      of their operands compare, in the type the narrow operation is done in, as the operands do. */
  predicate OrderSurvives(final: nat, e: Tree)
    requires e.Binary?
  {
    final < e.ty.prec && Undistorted(final, e) ==>
      KeepsOrder(final, e.ty.uns || Unwiden(e.l, final).ty.uns || Unwiden(e.r, final).ty.uns, ShapeOf(e.l), ShapeOf(e.r))
  }

  lemma {:induction false} ChainValue(op: Tree, env: Env, s: int)
    requires Wf(op, env)
    ensures WfShape(ShapeOf(op)) && ShapeOf(op).bits <= op.ty.prec
    ensures Eval(op, env, s) == Outcome(ValueOf(ShapeOf(op), Eval(Base(op), env, s).val), Eval(Base(op), env, s).st)
  {
    if op.Nop? {
      ChainValue(op.arg, env, s);
      RetypedWf(ShapeOf(op.arg), op.ty);
      RetypedValue(ShapeOf(op.arg), op.ty, Eval(Base(op), env, s).val);
    } else {
      EvalInRange(op, env, s);
      TypeValue(op.ty, Eval(op, env, s).val);
      WrapOfFitting(op.ty.prec, op.ty.uns, Eval(op, env, s).val);
    }
  }

  /** The conversions keep no more bits than what get_unwidened finds inside them has. */
  lemma {:induction false} UnwidenFromBits(op: Tree, win: Tree, uns: bool, final: nat, env: Env, k: nat)
    requires Wf(op, env) && k <= ShapeOf(op).bits && k <= win.ty.prec
    ensures k <= UnwidenFrom(op, win, uns, final).ty.prec
    decreases op
  {
    if op.Nop? && !(op.ty.prec < op.arg.ty.prec && final > op.ty.prec) {
      var inner := op.arg;
      ChainValue(inner, env, 0);
      RetypedWf(ShapeOf(inner), op.ty);
      hide ShapeOf, Retyped, Wf;
      if op.ty.prec > inner.ty.prec {
        if (uns || inner.Nop?) && inner.ty.uns {
          UnwidenFromBits(inner, inner, true, final, env, k);
        } else {
          UnwidenFromBits(inner, if !uns || final <= inner.ty.prec then inner else win, uns, final, env, k);
        }
      } else {
        UnwidenFromBits(inner, win, uns, final, env, k);
      }
    }
  }

  lemma {:induction false} UnwidenBits(op: Tree, final: nat, env: Env)
    requires Wf(op, env)
    ensures ShapeOf(op).bits <= Unwiden(op, final).ty.prec
  {
    ChainValue(op, env, 0);
    UnwidenFromBits(op, op, final > op.ty.prec && op.ty.uns, final, env, ShapeOf(op).bits);
  }

  /** Comparisons and logical operations have a type that holds 1, logical operations work on 0 and 1,
      and MIN_EXPR and MAX_EXPR survive narrowing to `final` bits. */
  ghost predicate FrontEnd(e: Tree, final: nat, env: Env) {
    match e
    case Cst(_, _) => true
    case Leaf(_, _, _) => true
    case Nop(_, a) => FrontEnd(a, final, env)
    case Unary(_, _, a) => FrontEnd(a, final, env)
    case Binary(op, _, l, r) =>
      FrontEnd(l, final, env) && FrontEnd(r, final, env) && (op.MinOp? || op.MaxOp? ==> OrderSurvives(final, e))
    case Compare(_, t, l, r) => HoldsOne(t) && FrontEnd(l, final, env) && FrontEnd(r, final, env)
    case Truth(_, t, l, r) => HoldsOne(t) && FrontEnd(l, final, env) && FrontEnd(r, final, env) && ZeroOrOne(l, env) && ZeroOrOne(r, env)
    case TruthNot(t, a) => HoldsOne(t) && FrontEnd(a, final, env) && ZeroOrOne(a, env)
    case Cond(_, c, l, r) => FrontEnd(c, final, env) && FrontEnd(l, final, env) && FrontEnd(r, final, env)
    case Compound(_, l, r) => FrontEnd(l, final, env) && FrontEnd(r, final, env)
  }

  ghost predicate ZeroOrOne(e: Tree, env: Env) {
    forall s: int :: 0 <= Eval(e, env, s).val <= 1
  }

  lemma {:induction false} UnwidenFromShape(op: Tree, win: Tree, uns: bool, final: nat, env: Env)
    requires Wf(op, env) && Wf(win, env) && FrontEnd(op, final, env) && FrontEnd(win, final, env)
    ensures var r := UnwidenFrom(op, win, uns, final);
      Wf(r, env) && FrontEnd(r, final, env)
    decreases op
  {
    hide OrderSurvives, ZeroOrOne, TruthValued;
    if op.Nop? && !(op.ty.prec < op.arg.ty.prec && final > op.ty.prec) {
      var inner := op.arg;
      if op.ty.prec > inner.ty.prec {
        if (uns || inner.Nop?) && inner.ty.uns {
          UnwidenFromShape(inner, inner, true, final, env);
        } else {
          UnwidenFromShape(inner, if !uns || final <= inner.ty.prec then inner else win, uns, final, env);
        }
      } else {
        UnwidenFromShape(inner, win, uns, final, env);
      }
    }
  }

  lemma {:induction false} UnwidenShape(op: Tree, final: nat, env: Env)
    requires Wf(op, env) && FrontEnd(op, final, env)
    ensures Wf(Unwiden(op, final), env) && FrontEnd(Unwiden(op, final), final, env)
  {
    UnwidenFromShape(op, op, final > op.ty.prec && op.ty.uns, final, env);
  }
}
