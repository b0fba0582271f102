/** When MIN_EXPR and MAX_EXPR may be narrowed: for operands that are any conversions of two
    variables, exactly when OrderSurvives says so. */
module MinMaxNarrowing {
  import opened IntegerTypes
  import opened Extensions
  import opened Trees
  import opened IntegerConversion
  import opened IntegerConversionMeaning

  /** Any conversions of variable `id`. */
  predicate OverVariable(op: Tree, id: nat) {
    Base(op).Leaf? && Base(op).id == id && !Base(op).effects
  }

  /** MIN_EXPR or MAX_EXPR of conversions of two different variables. */
  ghost predicate OfTwoVariables(e: Tree, i: nat, k: nat) {
    && e.Binary? && (e.op.MinOp? || e.op.MaxOp?)
    && OverVariable(e.l, i) && OverVariable(e.r, k) && i != k && forall env: Env :: Wf(e, env)
  }

  function Variables(i: nat, x: int, y: int): Env {
    Env((id: nat, s: int) => if id == i then x else y, (id: nat, s: int) => s, (code: nat, v: int, w: int) => 0)
  }

  lemma {:induction false} ChainFrontEnd(op: Tree, id: nat, final: nat, env: Env)
    requires OverVariable(op, id)
    ensures FrontEnd(op, final, env)
  {
    if op.Nop? {
      ChainFrontEnd(op.arg, id, final, env);
    }
  }

  lemma {:induction false} ValueOfLow(s: Shape, z: int, w: int)
    requires WfShape(s) && Cong(s.bits, z, w)
    ensures ValueOf(s, z) == ValueOf(s, w)
  {
  }

  lemma {:induction false} BaseBits(op: Tree, env: Env)
    requires Wf(op, env)
    ensures ShapeOf(op).bits <= Base(op).ty.prec && Wf(Base(op), env)
  {
    if op.Nop? {
      BaseBits(op.arg, env);
      ChainValue(op.arg, env, 0);
      RetypedWf(ShapeOf(op.arg), op.ty);
    }
  }

  /** The conversions of a variable give each number its value of their shape, with its parity. */
  lemma {:induction false} VariableValue(op: Tree, id: nat, i: nat, x: int, y: int, s: int)
    requires OverVariable(op, id) && Wf(op, Variables(i, x, y))
    ensures var z := if id == i then x else y;
      Eval(op, Variables(i, x, y), s) == Outcome(ValueOf(ShapeOf(op), z), s) && ValueOf(ShapeOf(op), z) % 2 == z % 2
  {
    var env, z := Variables(i, x, y), if id == i then x else y;
    var t := Base(op).ty;
    ChainValue(op, env, s);
    BaseBits(op, env);
    WrapCong(t.prec, t.prec, t.uns, z);
    CongLower(ShapeOf(op).bits, t.prec, Wrap(t, z), z);
    ValueOfLow(ShapeOf(op), Wrap(t, z), z);
    ValueCong(ShapeOf(op), z);
    HalfCong(ShapeOf(op).bits, ValueOf(ShapeOf(op), z), z);
  }

  lemma {:induction false} WrapParity(t: IntType, v: int)
    requires WfType(t)
    ensures Wrap(t, v) % 2 == v % 2
  {
    WrapCong(t.prec, t.prec, t.uns, v);
    HalfCong(t.prec, Wrap(t, v), v);
  }

  /** The narrowed tree: the operation on the stripped operands, in the type the narrowing works in. */
  lemma {:induction false} Narrowed(t: Target, via: IntType, e: Tree, i: nat, k: nat, env: Env)
    requires TargetOk(t) && OfTwoVariables(e, i, k) && WfType(via) && !Detours(via) && via.prec < e.ty.prec && Undistorted(via.prec, e)
    requires Folds(t, via, e, Right(t.fold, env))
    ensures var arg0, arg1 := Unwiden(e.l, via.prec), Unwiden(e.r, via.prec);
      var typex := WorkType(t, via, e.ty.uns || arg0.ty.uns || arg1.ty.uns);
      var b := Binary(e.op, typex, Convert(t, typex, arg0), Convert(t, typex, arg1));
      && Wf(b, env) && Means(Convert(t, typex, arg0), typex, arg0, env) && Means(Convert(t, typex, arg1), typex, arg1, env)
      && Means(Convert(t, via, e), via, b, env)
  {
    var p := via.prec;
    var arg0, arg1 := Unwiden(e.l, p), Unwiden(e.r, p);
    var typex := WorkType(t, via, e.ty.uns || arg0.ty.uns || arg1.ty.uns);
    assert Wf(e, env);
    ChainFrontEnd(e.l, i, p, env);
    ChainFrontEnd(e.r, k, p, env);
    UnwidenShape(e.l, p, env);
    UnwidenShape(e.r, p, env);
    var a, c := Convert(t, typex, arg0), Convert(t, typex, arg1);
    var b := Binary(e.op, typex, a, c);
    assert Distributes(via, e) && WorthIt(t, via, e, arg0, arg1);
    FoldsOfNarrowed(t, via, e, Right(t.fold, env));
    hide Convert, Unwiden, Eval, Wrap, TargetOk, Folds, FoldsAgain, Again;
    ConvertMeans(t, env, typex, arg0);
    ConvertMeans(t, env, typex, arg1);
    NarrowOfTwo(via, typex, e.op, a, c, arg0, arg1, env);
    AgainMeans(t, env, via, b, b);
    RightIs(t.fold, ConvertToInteger(t, via, e), env);
    FoldMeans(t.fold, env, via, ConvertToInteger(t, via, e), b);
    ConvertIs(t, via, e);
  }

  /** What is folded on the way, when the operation is narrowed. */
  lemma {:induction false} FoldsOfNarrowed(t: Target, via: IntType, e: Tree, good: Tree -> bool)
    requires TargetOk(t) && e.Binary? && (e.op.MinOp? || e.op.MaxOp?)
    requires WfType(via) && !Detours(via) && via.prec < e.ty.prec && Undistorted(via.prec, e) && Folds(t, via, e, good)
    ensures var arg0, arg1 := Unwiden(e.l, via.prec), Unwiden(e.r, via.prec);
      var typex := WorkType(t, via, e.ty.uns || arg0.ty.uns || arg1.ty.uns);
      var b := Binary(e.op, typex, Convert(t, typex, arg0), Convert(t, typex, arg1));
      && Folds(t, typex, arg0, good) && Folds(t, typex, arg1, good) && FoldsAgain(t, via, b, good)
      && ConvertToInteger(t, via, e) == Again(t, via, t.fold(b)) && good(ConvertToInteger(t, via, e))
  {
    assert FoldsInside(t, via, e, good) && good(ConvertToInteger(t, via, e));
    assert FoldsNarrow(t, via, e, good);
    assert FoldsBinary(t, via, e, good);
    hide Folds, Convert, Unwiden;
    assert ConvertToInteger(t, via, e) == Narrow(t, via, e) == Distribute(t, via, e);
  }

  lemma {:induction false} NarrowOfTwo(via: IntType, typex: IntType, op: BinaryOp, a: Tree, c: Tree, arg0: Tree, arg1: Tree, env: Env)
    requires op.MinOp? || op.MaxOp?
    requires WfType(typex) && typex.prec == typex.modeBits == via.prec && Means(a, typex, arg0, env) && Means(c, typex, arg1, env)
    requires FrontEnd(a, via.prec, env) && FrontEnd(c, via.prec, env)
    ensures var b := Binary(op, typex, a, c); Wf(b, env) && Rebuilt(b, via.prec, b, env)
  {
    hide Eval;
  }

  lemma {:induction false} ConvertIs(t: Target, via: IntType, e: Tree)
    requires TargetOk(t) && via != e.ty
    ensures Convert(t, via, e) == t.fold(ConvertToInteger(t, via, e))
  {
  }

  /** The narrow operation chooses the other operand. */
  lemma {:induction false} ChoosesOther(env: Env, op: BinaryOp, wide: IntType, narrow: IntType, v: int, w: int)
    requires (op.MinOp? || op.MaxOp?) && WfType(wide) && WfType(narrow) && v % 2 != w % 2
    requires w < v <==> !(Wrap(narrow, w) < Wrap(narrow, v))
    ensures BinaryValue(env, op, wide, v, w) % 2 != BinaryValue(env, op, narrow, Wrap(narrow, v), Wrap(narrow, w)) % 2
  {
    WrapParity(narrow, v);
    WrapParity(narrow, w);
    hide Wrap;
  }

  /** Where order does not survive, some values of the variables show it, in the lowest bit. */
  lemma {:induction false} NarrowedWrong(t: Target, via: IntType, e: Tree, i: nat, k: nat) returns (env: Env)
    requires TargetOk(t) && OfTwoVariables(e, i, k) && WfType(via) && !Detours(via) && !OrderSurvives(via.prec, e)
    requires forall env: Env :: Folds(t, via, e, Right(t.fold, env))
    ensures Eval(Convert(t, via, e), env, 0).val % 2 != Eval(e, env, 0).val % 2
  {
    var p := via.prec;
    var arg0, arg1 := Unwiden(e.l, p), Unwiden(e.r, p);
    var typex := WorkType(t, via, e.ty.uns || arg0.ty.uns || arg1.ty.uns);
    ghost var any := Variables(i, 0, 0);
    assert Wf(e, any);
    ChainValue(e.l, any, 0);
    ChainValue(e.r, any, 0);
    UnwidenBits(e.l, p, any);
    UnwidenBits(e.r, p, any);
    hide Convert, Folds, Unwiden, ShapeOf, ValueOf, Wf, FrontEnd;
    var x, y := OrderLost(p, typex.uns, ShapeOf(e.l), ShapeOf(e.r));
    env := Variables(i, x, y);
    assert Folds(t, via, e, Right(t.fold, env));
    NarrowedDiffers(t, via, e, i, k, x, y);
  }

  lemma {:induction false} NarrowedDiffers(t: Target, via: IntType, e: Tree, i: nat, k: nat, x: int, y: int)
    requires TargetOk(t) && OfTwoVariables(e, i, k) && WfType(via) && !Detours(via) && via.prec < e.ty.prec && Undistorted(via.prec, e)
    requires Folds(t, via, e, Right(t.fold, Variables(i, x, y)))
    requires var uns := e.ty.uns || Unwiden(e.l, via.prec).ty.uns || Unwiden(e.r, via.prec).ty.uns;
      var v, w := ValueOf(ShapeOf(e.l), x), ValueOf(ShapeOf(e.r), y);
      x % 2 != y % 2 && (w < v <==> !(WrapTo(via.prec, uns, w) < WrapTo(via.prec, uns, v)))
    ensures Eval(Convert(t, via, e), Variables(i, x, y), 0).val % 2 != Eval(e, Variables(i, x, y), 0).val % 2
  {
    var p, env := via.prec, Variables(i, x, y);
    var arg0, arg1 := Unwiden(e.l, p), Unwiden(e.r, p);
    var typex := WorkType(t, via, e.ty.uns || arg0.ty.uns || arg1.ty.uns);
    assert Wf(e, env);
    hide Convert, Unwiden, FrontEnd, ValueOf, ShapeOf, Undistorted, Folds, Variables;
    Narrowed(t, via, e, i, k, env);
    VariableValue(e.l, i, i, x, y, 0);
    VariableValue(e.r, k, i, x, y, 0);
    UnwidenKeeps(e.l, p, env, 0);
    UnwidenKeeps(e.r, p, env, 0);
    var v, w := Eval(e.l, env, 0).val, Eval(e.r, env, 0).val;
    var b := Binary(e.op, typex, Convert(t, typex, arg0), Convert(t, typex, arg1));
    hide OfTwoVariables;
    assert Eval(b.l, env, 0) == Outcome(Wrap(typex, v), 0) && Eval(b.r, env, 0) == Outcome(Wrap(typex, w), 0) by {
      WrapOfCong(typex, v, Eval(arg0, env, 0).val);
      WrapOfCong(typex, w, Eval(arg1, env, 0).val);
    }
    ChoosesOther(env, e.op, e.ty, typex, v, w);
    WrapParity(e.ty, BinaryValue(env, e.op, e.ty, v, w));
    WrapParity(typex, BinaryValue(env, e.op, typex, Wrap(typex, v), Wrap(typex, w)));
    WrapParity(via, Eval(b, env, 0).val);
  }

  /** The same when the type is reached through the type of its mode. */
  lemma {:induction false} ConvertedWrong(t: Target, type0: IntType, e: Tree, i: nat, k: nat) returns (env: Env)
    requires TargetOk(t) && OfTwoVariables(e, i, k) && WfType(type0) && !OrderSurvives(type0.modeBits, e)
    requires forall env: Env :: Folds(t, type0, e, Right(t.fold, env))
    ensures Eval(Convert(t, type0, e), env, 0).val % 2 != Eval(e, env, 0).val % 2
  {
    if Detours(type0) {
      var via := t.forMode(type0.modeBits, type0.uns);
      forall env: Env ensures Folds(t, via, e, Right(t.fold, env)) {
        assert Folds(t, type0, e, Right(t.fold, env));
        assert FoldsInside(t, type0, e, Right(t.fold, env));
      }
      env := NarrowedWrong(t, via, e, i, k);
      assert ConvertToInteger(t, type0, e) == Nop(type0, Convert(t, via, e));
      assert Folds(t, type0, e, Right(t.fold, env)) && Folds(t, via, e, Right(t.fold, env)) && Wf(e, env);
      DetourValue(t, type0, via, e, i, k, env);
    } else {
      env := NarrowedWrong(t, type0, e, i, k);
    }
  }

  lemma {:induction false} DetourValue(t: Target, type0: IntType, via: IntType, e: Tree, i: nat, k: nat, env: Env)
    requires TargetOk(t) && OfTwoVariables(e, i, k) && WfType(type0) && WfType(via) && !Detours(via)
    requires Folds(t, via, e, Right(t.fold, env)) && Folds(t, type0, e, Right(t.fold, env))
    requires via.prec == type0.modeBits < e.ty.prec && Undistorted(via.prec, e) && type0 != e.ty
    requires ConvertToInteger(t, type0, e) == Nop(type0, Convert(t, via, e))
    ensures Eval(Convert(t, type0, e), env, 0).val % 2 == Eval(Convert(t, via, e), env, 0).val % 2
  {
    Narrowed(t, via, e, i, k, env);
    ConvertIs(t, type0, e);
    var x := Nop(type0, Convert(t, via, e));
    assert Right(t.fold, env)(x);
    RightIs(t.fold, x, env);
    hide Convert, ConvertToInteger, Undistorted, Unwiden, Wrap, OfTwoVariables, Folds;
    assert Wf(x, env);
    assert Eval(t.fold(x), env, 0) == Eval(x, env, 0);
    WrapParity(type0, Eval(Convert(t, via, e), env, 0).val);
  }

  /** Converting the minimum or maximum of any conversions of two variables, to any integer type, is
      right for all their values exactly when order survives narrowing to the mode of the type. */
  lemma {:induction false} MinNarrowingIff(t: Target, type0: IntType, e: Tree, i: nat, k: nat)
    requires TargetOk(t) && WfType(type0) && OfTwoVariables(e, i, k) && forall env: Env :: Folds(t, type0, e, Right(t.fold, env))
    ensures (forall env: Env :: Means(Convert(t, type0, e), type0, e, env)) <==> OrderSurvives(type0.modeBits, e)
  {
    if OrderSurvives(type0.modeBits, e) {
      forall env: Env ensures Means(Convert(t, type0, e), type0, e, env) {
        assert Folds(t, type0, e, Right(t.fold, env));
        ConvertedRight(t, type0, e, i, k, env);
      }
    } else {
      var env := ConvertedWrong(t, type0, e, i, k);
      hide *;
      if Means(Convert(t, type0, e), type0, e, env) {
        MeansParity(Convert(t, type0, e), type0, e, env);
      }
    }
  }

  lemma {:induction false} ConvertedRight(t: Target, type0: IntType, e: Tree, i: nat, k: nat, env: Env)
    requires TargetOk(t) && WfType(type0) && OfTwoVariables(e, i, k) && OrderSurvives(type0.modeBits, e) && Folds(t, type0, e, Right(t.fold, env))
    ensures Means(Convert(t, type0, e), type0, e, env)
  {
    assert Wf(e, env);
    ChainFrontEnd(e.l, i, type0.modeBits, env);
    ChainFrontEnd(e.r, k, type0.modeBits, env);
    hide Means, Convert, TargetOk, Folds, OrderSurvives;
    ConvertMeans(t, env, type0, e);
  }

  lemma {:induction false} MeansParity(r: Tree, type0: IntType, e: Tree, env: Env)
    requires Means(r, type0, e, env) && WfType(type0)
    ensures Eval(r, env, 0).val % 2 == Eval(e, env, 0).val % 2
  {
    WrapParity(type0, Eval(e, env, 0).val);
    hide Wrap;
  }

  // ----- Chains that distort -----

  function Converted(outer: IntType, mid: IntType, inner: IntType, id: nat): Tree {
    Nop(outer, Nop(mid, Leaf(inner, id, false)))
  }

  /** A signed operand converted to an unsigned type directly, the other by way of a narrower one:
      (unsigned long) (unsigned short) a and (unsigned long) b, narrowed to their type char. */
  lemma {:induction false} UnequalModuli(outer: IntType, mid: IntType, inner: IntType, op: BinaryOp)
    requires WfType(outer) && WfType(mid) && WfType(inner) && inner.prec == inner.modeBits >= 2
    requires outer.uns && mid.uns && !inner.uns && inner.prec < mid.prec < outer.prec
    ensures !OrderSurvives(inner.prec, Binary(op, outer, Converted(outer, mid, inner, 0), Nop(outer, Leaf(inner, 1, false))))
  {
    ChainStripped(outer, mid, inner, 0);
    var e, x, p := Nop(outer, Leaf(inner, 1, false)), Leaf(inner, 1, false), inner.prec;
    assert UnwidenFrom(e, e, false, p) == UnwidenFrom(x, x, false, p) == x;
    assert ShapeOf(x) == Signed(p);
  }

  /** Conversions from a signed type through a wider unsigned type to a wider signed one. */
  lemma {:induction false} SignLost(outer: IntType, mid: IntType, inner: IntType, op: BinaryOp)
    requires WfType(outer) && WfType(mid) && WfType(inner) && inner.prec == inner.modeBits
    requires !outer.uns && mid.uns && !inner.uns && inner.prec < mid.prec < outer.prec
    ensures !OrderSurvives(inner.prec, Binary(op, outer, Converted(outer, mid, inner, 0), Converted(outer, mid, inner, 1)))
  {
    ChainStripped(outer, mid, inner, 0);
    ChainStripped(outer, mid, inner, 1);
  }

  lemma {:induction false} ChainStripped(outer: IntType, mid: IntType, inner: IntType, id: nat)
    requires WfType(outer) && WfType(mid) && WfType(inner) && mid.uns && !inner.uns && inner.prec < mid.prec <= outer.prec
    requires mid.prec < outer.prec || outer.uns
    ensures Unwiden(Converted(outer, mid, inner, id), inner.prec) == Leaf(inner, id, false)
    ensures ShapeOf(Converted(outer, mid, inner, id)) == Lifted(inner.prec, mid.prec)
  {
    var e := Converted(outer, mid, inner, id);
    var m, x := e.arg, e.arg.arg;
    var p := inner.prec;
    assert UnwidenFrom(x, x, true, p) == x && UnwidenFrom(x, x, false, p) == x;
    if mid.prec < outer.prec {
      assert UnwidenFrom(e, e, false, p) == UnwidenFrom(m, m, true, p) == UnwidenFrom(x, x, true, p);
    } else {
      assert UnwidenFrom(e, e, false, p) == UnwidenFrom(m, e, false, p) == UnwidenFrom(x, x, false, p);
    }
    assert ShapeOf(x) == Signed(p) && ShapeOf(m) == Lifted(p, mid.prec);
  }
}
