/** Conversion to an integer type preserves value and side effects. */
module IntegerConversionMeaning {
  import opened IntegerTypes
  import opened Extensions
  import opened Trees
  import opened IntegerConversion

  /** r is e converted to type0: same side effects, and e's value reduced to the type. */
  ghost predicate Means(r: Tree, type0: IntType, e: Tree, env: Env) {
    r.ty == type0 && Wf(r, env) &&
    forall s: int :: Eval(r, env, s) == Outcome(Wrap(type0, Eval(e, env, s).val), Eval(e, env, s).st)
  }

  ghost predicate Input(type0: IntType, e: Tree, env: Env) {
    WfType(type0) && Wf(e, env) && FrontEnd(e, type0.modeBits, env)
  }

  // ----- What is asked of fold -----

  /** r has the type, the value and the side effects of x. */
  ghost predicate SameTree(r: Tree, x: Tree, env: Env) {
    r.ty == x.ty && Wf(r, env) && forall s: int :: Eval(r, env, s) == Eval(x, env, s)
  }

  /** fold does what it is for on x, and where x is as the front end builds trees in a type that fills
      its mode so is what it returns. */
  ghost predicate FoldsRight(fold: Tree -> Tree, x: Tree, env: Env) {
    && SameTree(fold(x), x, env)
    && (x.ty.prec == x.ty.modeBits && FrontEnd(x, x.ty.prec, env) ==> FrontEnd(fold(x), x.ty.prec, env))
  }

  ghost function Right(fold: Tree -> Tree, env: Env): Tree -> bool {
    (x: Tree) => FoldsRight(fold, x, env)
  }

  /** What converting e to type0 needs: e as the front end builds it, and fold right on the trees it is
      given on the way. */
  ghost predicate Converts(t: Target, env: Env, type0: IntType, e: Tree)
    requires TargetOk(t)
  {
    Input(type0, e, env) && Folds(t, type0, e, Right(t.fold, env))
  }

  lemma {:induction false} RightIs(fold: Tree -> Tree, x: Tree, env: Env)
    requires Right(fold, env)(x)
    ensures FoldsRight(fold, x, env)
  {
  }

  /** In a type that fills its mode the result can be converted again. */
  ghost predicate Shaped(r: Tree, type0: IntType, env: Env) {
    type0.prec == type0.modeBits ==> FrontEnd(r, type0.prec, env)
  }

  lemma {:induction false} FoldMeans(fold: Tree -> Tree, env: Env, type0: IntType, r: Tree, e: Tree)
    requires FoldsRight(fold, r, env) && Means(r, type0, e, env) && Shaped(r, type0, env)
    ensures Means(fold(r), type0, e, env) && Shaped(fold(r), type0, env)
  {
    hide Eval, Wf, FrontEnd, Wrap;
  }

  // ----- Trees converted at once -----

  lemma {:induction false} NopMeans(type0: IntType, e: Tree, env: Env)
    requires WfType(type0) && Wf(e, env)
    ensures Means(Nop(type0, e), type0, e, env)
  {
  }

  lemma {:induction false} CompareMeans(type0: IntType, e: Tree, env: Env)
    requires e.Compare? && HoldsOne(e.ty) && WfType(type0) && Wf(e, env)
    ensures Means(Compare(e.cop, type0, e.l, e.r), type0, e, env)
  {
    FlagValue(e.ty, true);
    FlagValue(e.ty, false);
  }

  /** Converting a truth value keeps whether it is zero. */
  lemma {:induction false} TruthKept(type0: IntType, v: int)
    requires WfType(type0) && 0 <= v <= 1
    ensures (Wrap(type0, v) == 0 <==> v == 0) && -1 <= Wrap(type0, v) <= 1
  {
    FlagValue(type0, v == 1);
    WrapFits(type0.prec, type0.uns, v);
    if type0.prec >= 2 {
      WrapOfFitting(type0.prec, true, v);
      Pow2Mono(1, type0.prec - 1);
    } else {
      assert Pow2(1) == 2;
    }
  }

  lemma {:induction false} OperandTruth(type0: IntType, e: Tree, r: Tree, env: Env)
    requires WfType(type0) && ZeroOrOne(e, env) && Means(r, type0, e, env)
    ensures TruthValued(r, env)
    ensures forall s: int :: Eval(r, env, s).st == Eval(e, env, s).st && (Eval(r, env, s).val != 0 <==> Eval(e, env, s).val != 0)
  {
    forall s: int
      ensures -1 <= Eval(r, env, s).val <= 1 && Eval(r, env, s).st == Eval(e, env, s).st
      ensures Eval(r, env, s).val != 0 <==> Eval(e, env, s).val != 0
    {
      TruthKept(type0, Eval(e, env, s).val);
    }
  }

  lemma {:induction false} TruthMeans(type0: IntType, e: Tree, l: Tree, r: Tree, env: Env)
    requires e.Truth? && Input(type0, e, env) && Means(l, type0, e.l, env) && Means(r, type0, e.r, env)
    ensures Means(Truth(e.top, type0, l, r), type0, e, env)
  {
    OperandTruth(type0, e.l, l, env);
    OperandTruth(type0, e.r, r, env);
    forall s: int
      ensures Eval(Truth(e.top, type0, l, r), env, s) == Outcome(Wrap(type0, Eval(e, env, s).val), Eval(e, env, s).st)
    {
      hide *;
      TruthAt(type0, e, l, r, env, s);
    }
  }

  lemma {:induction false} TruthAt(type0: IntType, e: Tree, l: Tree, r: Tree, env: Env, s: int)
    requires e.Truth? && HoldsOne(e.ty) && WfType(e.ty)
    requires forall u: int :: Eval(l, env, u).st == Eval(e.l, env, u).st && (Eval(l, env, u).val != 0 <==> Eval(e.l, env, u).val != 0)
    requires forall u: int :: Eval(r, env, u).st == Eval(e.r, env, u).st && (Eval(r, env, u).val != 0 <==> Eval(e.r, env, u).val != 0)
    ensures Eval(Truth(e.top, type0, l, r), env, s) == Outcome(Wrap(type0, Eval(e, env, s).val), Eval(e, env, s).st)
  {
    FlagValue(e.ty, true);
    FlagValue(e.ty, false);
    hide Wrap, WfType, HoldsOne, InRange;
    var x := Eval(e.l, env, s);
    assert Eval(l, env, s).st == x.st;
    assert Eval(r, env, x.st).st == Eval(e.r, env, x.st).st;
  }

  lemma {:induction false} TruthNotMeans(type0: IntType, e: Tree, a: Tree, env: Env)
    requires e.TruthNot? && Input(type0, e, env) && Means(a, type0, e.arg, env)
    ensures Means(TruthNot(type0, a), type0, e, env)
  {
    FlagValue(e.ty, true);
    FlagValue(e.ty, false);
    forall s: int ensures (Eval(a, env, s).val == 0 <==> Eval(e.arg, env, s).val == 0) && -1 <= Eval(a, env, s).val <= 1 {
      TruthKept(type0, Eval(e.arg, env, s).val);
    }
  }

  /** Going through the type of the mode. */
  lemma {:induction false} DetourMeans(type0: IntType, via: IntType, e: Tree, r: Tree, env: Env)
    requires WfType(type0) && via.prec >= type0.prec && Means(r, via, e, env)
    ensures Means(Nop(type0, r), type0, e, env)
  {
    forall s: int ensures Wrap(type0, Wrap(via, Eval(e, env, s).val)) == Wrap(type0, Eval(e, env, s).val) {
      WrapWrap(type0.prec, type0.uns, via.prec, via.uns, Eval(e, env, s).val);
    }
  }

  lemma {:induction false} WrapOfCong(type0: IntType, v: int, w: int)
    requires Cong(type0.prec, v, w)
    ensures Wrap(type0, v) == Wrap(type0, w)
  {
  }

  /** b does e's arithmetic in p bits: it computes e's low bits. */
  ghost predicate Rebuilt(b: Tree, p: nat, e: Tree, env: Env) {
    && b.ty.prec == b.ty.modeBits == p && Wf(b, env) && FrontEnd(b, p, env)
    && forall s: int :: Cong(p, Eval(e, env, s).val, Eval(b, env, s).val) && Eval(b, env, s).st == Eval(e, env, s).st
  }

  /** What means the rebuilt tree, folded, means e. */
  lemma {:induction false} RebuiltMeans(type0: IntType, r: Tree, x: Tree, b: Tree, e: Tree, env: Env)
    requires Rebuilt(b, type0.prec, e, env) && SameTree(x, b, env) && Means(r, type0, x, env)
    ensures Means(r, type0, e, env)
  {
    hide Wf, Eval, Wrap, Cong, FrontEnd;
    forall s: int ensures Eval(r, env, s) == Outcome(Wrap(type0, Eval(e, env, s).val), Eval(e, env, s).st) {
      assert Eval(x, env, s) == Eval(b, env, s);
      assert Cong(type0.prec, Eval(e, env, s).val, Eval(b, env, s).val);
      WrapOfCong(type0, Eval(e, env, s).val, Eval(b, env, s).val);
    }
  }

  // ----- Distributing over a binary operation -----

  /** The smaller (or larger) of two values, in the wide type and in the narrow one. */
  lemma {:induction false} MinMaxLow(env: Env, op: BinaryOp, wide: IntType, narrow: IntType, a: Shape, b: Shape, v: int, w: int)
    requires (op.MinOp? || op.MaxOp?) && WfType(narrow) && WfShape(a) && WfShape(b) && a.bits <= narrow.prec && b.bits <= narrow.prec
    requires Stands(narrow.prec, a, v) && Stands(narrow.prec, b, w) && KeepsOrder(narrow.prec, narrow.uns, a, b)
    ensures Cong(narrow.prec, BinaryValue(env, op, wide, v, w), BinaryValue(env, op, narrow, Wrap(narrow, v), Wrap(narrow, w)))
  {
    var p := narrow.prec;
    WrapCong(p, p, narrow.uns, v);
    WrapCong(p, p, narrow.uns, w);
    if Bits(p, v) != Bits(p, w) {
      OrderKept(p, narrow.uns, a, b, v, w);
      OrderKept(p, narrow.uns, b, a, w, v);
    }
    hide WrapTo, Stands, KeepsOrder;
  }

  lemma {:induction false} ShiftLow(env: Env, op: BinaryOp, p: nat, wide: IntType, narrow: IntType, v: int, x: int, c: int)
    requires (op.LShift? && c >= 0) || (op.RShift? && c == 0)
    requires Cong(p, v, x)
    ensures Cong(p, BinaryValue(env, op, wide, v, c), BinaryValue(env, op, narrow, x, c))
  {
    CongMulLeft(p, v, x, Pow2(c));
  }

  lemma {:induction false} BinaryLow(env: Env, e: Tree, type0: IntType, typex: IntType, a: Tree, b: Tree, s: int)
    requires Distributes(type0, e) && Input(type0, e, env) && type0.prec == type0.modeBits < e.ty.prec && WfType(typex) && typex.prec == type0.prec
    requires var arg0, arg1 := Unwiden(e.l, type0.prec), Unwiden(e.r, type0.prec);
      && Means(a, typex, arg0, env) && Means(b, typex, arg1, env)
      && typex.uns == (e.ty.uns || arg0.ty.uns || arg1.ty.uns)
    ensures Cong(type0.prec, Eval(e, env, s).val, Eval(Binary(e.op, typex, a, b), env, s).val)
    ensures Eval(Binary(e.op, typex, a, b), env, s).st == Eval(e, env, s).st
  {
    var p := type0.prec;
    var arg0, arg1 := Unwiden(e.l, p), Unwiden(e.r, p);
    UnwidenKeeps(e.l, p, env, s);
    var s1 := Eval(e.l, env, s).st;
    UnwidenKeeps(e.r, p, env, s1);
    var v, w := Eval(e.l, env, s).val, Eval(e.r, env, s1).val;
    var m, n := Eval(arg0, env, s).val, Eval(arg1, env, s1).val;
    var x, y := Wrap(typex, m), Wrap(typex, n);
    assert Eval(a, env, s) == Outcome(x, s1) && Eval(b, env, s1) == Outcome(y, Eval(e.r, env, s1).st);
    WrapCong(p, p, typex.uns, m);
    WrapCong(p, p, typex.uns, n);
    OperationLow(env, e, type0, typex, s, v, w, m, n);
    WrapCong(e.ty.prec, p, e.ty.uns, BinaryValue(env, e.op, e.ty, v, w));
    WrapCong(p, p, typex.uns, BinaryValue(env, e.op, typex, x, y));
    hide WrapTo, Unwiden, BinaryValue, Wf, FrontEnd;
  }

  /** The operation itself, on the operand values. */
  lemma {:induction false} OperationLow(env: Env, e: Tree, type0: IntType, typex: IntType, s: int, v: int, w: int, m: int, n: int)
    requires Distributes(type0, e) && Input(type0, e, env) && type0.prec == type0.modeBits < e.ty.prec && WfType(typex) && typex.prec == type0.prec
    requires var arg0, arg1 := Unwiden(e.l, type0.prec), Unwiden(e.r, type0.prec);
      var s1 := Eval(e.l, env, s).st;
      && v == Eval(e.l, env, s).val && w == Eval(e.r, env, s1).val
      && m == Eval(arg0, env, s).val && n == Eval(arg1, env, s1).val
      && typex.uns == (e.ty.uns || arg0.ty.uns || arg1.ty.uns)
    requires Cong(type0.prec, v, m) && Cong(type0.prec, w, n)
    requires Cong(type0.prec, v, Wrap(typex, m)) && Cong(type0.prec, w, Wrap(typex, n))
    ensures Cong(type0.prec, BinaryValue(env, e.op, e.ty, v, w), BinaryValue(env, e.op, typex, Wrap(typex, m), Wrap(typex, n)))
  {
    var p := type0.prec;
    var arg0, arg1 := Unwiden(e.l, p), Unwiden(e.r, p);
    var s1 := Eval(e.l, env, s).st;
    if e.op.MinOp? || e.op.MaxOp? {
      ChainValue(e.l, env, s);
      ChainValue(e.r, env, s1);
      UnwidenBits(e.l, p, env);
      UnwidenBits(e.r, p, env);
      ShapeStands(p, ShapeOf(e.l), Eval(Base(e.l), env, s).val);
      ShapeStands(p, ShapeOf(e.r), Eval(Base(e.r), env, s1).val);
      WrapOfCong(typex, v, m);
      WrapOfCong(typex, w, n);
      MinMaxLow(env, e.op, e.ty, typex, ShapeOf(e.l), ShapeOf(e.r), v, w);
    } else if e.op.LShift? || e.op.RShift? {
      CountKept(type0, typex, e.r.val);
      ShiftLow(env, e.op, p, e.ty, typex, v, Wrap(typex, m), e.r.val);
    } else {
      LowBits(env, e.op, p, e.ty, typex, v, w, Wrap(typex, m), Wrap(typex, n));
    }
  }

  /** A shift count below the width survives conversion to the working type. */
  lemma {:induction false} CountKept(type0: IntType, typex: IntType, c: int)
    requires 0 <= c < typex.prec && WfType(typex)
    ensures Wrap(typex, c) == c
  {
    Pow2Exceeds(typex.prec - 1);
    Pow2Mono(typex.prec - 1, typex.prec);
    WrapOfFitting(typex.prec, typex.uns, c);
  }

  // ----- The tree rebuilt -----

  lemma {:induction false} BinaryRebuilt(env: Env, type0: IntType, e: Tree, typex: IntType, a: Tree, b: Tree)
    requires Input(type0, e, env) && Distributes(type0, e) && WfType(typex)
    requires type0.prec == type0.modeBits < e.ty.prec && typex.prec == typex.modeBits == type0.prec
    requires var arg0, arg1 := Unwiden(e.l, type0.prec), Unwiden(e.r, type0.prec);
      && Means(a, typex, arg0, env) && Means(b, typex, arg1, env)
      && typex.uns == (e.ty.uns || arg0.ty.uns || arg1.ty.uns)
    requires FrontEnd(a, type0.prec, env) && FrontEnd(b, type0.prec, env)
    ensures Rebuilt(Binary(e.op, typex, a, b), type0.prec, e, env)
  {
    var x := Binary(e.op, typex, a, b);
    if (e.op.LShift? || e.op.RShift?) && b.Cst? {
      CountKept(type0, typex, e.r.val);
      assert Eval(b, env, 0).val == Wrap(typex, e.r.val);
    }
    assert Wf(x, env) && FrontEnd(x, type0.prec, env);
    forall s: int ensures Cong(type0.prec, Eval(e, env, s).val, Eval(x, env, s).val) && Eval(x, env, s).st == Eval(e, env, s).st {
      BinaryLow(env, e, type0, typex, a, b, s);
    }
    hide Eval, Wf, FrontEnd;
  }

  lemma {:induction false} UnaryRebuilt(env: Env, type0: IntType, e: Tree, typex: IntType, a: Tree)
    requires Input(type0, e, env) && e.Unary? && (e.uop.Negate? || e.uop.BitNot?) && WfType(typex)
    requires type0.prec == type0.modeBits < e.ty.prec && typex.prec == typex.modeBits == type0.prec
    requires Means(a, typex, e.arg, env) && FrontEnd(a, type0.prec, env)
    ensures Rebuilt(Unary(e.uop, typex, a), type0.prec, e, env)
  {
    var x := Unary(e.uop, typex, a);
    var p := type0.prec;
    forall s: int ensures Cong(p, Eval(e, env, s).val, Eval(x, env, s).val) && Eval(x, env, s).st == Eval(e, env, s).st {
      var v := Eval(e.arg, env, s).val;
      assert Eval(a, env, s) == Outcome(Wrap(typex, v), Eval(e.arg, env, s).st);
      WrapCong(p, p, typex.uns, v);
      LowUnary(e.uop, p, e.ty, v, Wrap(typex, v));
      WrapCong(e.ty.prec, p, e.ty.uns, UnaryValue(e.uop, e.ty, v));
      WrapCong(p, p, typex.uns, UnaryValue(e.uop, typex, Wrap(typex, v)));
    }
  }

  lemma {:induction false} UnwidenedMeans(type0: IntType, op: Tree, r: Tree, p: nat, env: Env)
    requires WfType(type0) && type0.prec == p && Wf(op, env) && Means(r, type0, Unwiden(op, p), env)
    ensures Means(r, type0, op, env)
  {
    forall s: int ensures Eval(r, env, s) == Outcome(Wrap(type0, Eval(op, env, s).val), Eval(op, env, s).st) {
      UnwidenKeeps(op, p, env, s);
      WrapOfCong(type0, Eval(op, env, s).val, Eval(Unwiden(op, p), env, s).val);
    }
  }

  /** Stripping a conversion under a truncation. */
  lemma {:induction false} NestedNopMeans(type0: IntType, e: Tree, r: Tree, env: Env)
    requires WfType(type0) && e.Nop? && Wf(e, env) && type0.prec <= e.ty.prec && Means(r, type0, e.arg, env)
    ensures Means(r, type0, e, env)
  {
    forall s: int ensures Wrap(type0, Eval(e, env, s).val) == Wrap(type0, Eval(e.arg, env, s).val) {
      WrapWrap(type0.prec, type0.uns, e.ty.prec, e.ty.uns, Eval(e.arg, env, s).val);
    }
  }

  lemma {:induction false} KeptLow(typex: IntType, v: int)
    ensures Cong(typex.prec, v, Wrap(typex, v))
  {
    WrapCong(typex.prec, typex.prec, typex.uns, v);
  }

  lemma {:induction false} CondLow(env: Env, e: Tree, typex: IntType, a: Tree, b: Tree, s: int)
    requires e.Cond? && Means(a, typex, e.l, env) && Means(b, typex, e.r, env)
    ensures var x := Eval(Cond(typex, e.c, a, b), env, s);
      Cong(typex.prec, Eval(e, env, s).val, x.val) && x.st == Eval(e, env, s).st
  {
    var s1 := Eval(e.c, env, s).st;
    assert Eval(a, env, s1) == Outcome(Wrap(typex, Eval(e.l, env, s1).val), Eval(e.l, env, s1).st);
    assert Eval(b, env, s1) == Outcome(Wrap(typex, Eval(e.r, env, s1).val), Eval(e.r, env, s1).st);
    hide Wrap, Cong, Wf;
    KeptLow(typex, Eval(e.l, env, s1).val);
    KeptLow(typex, Eval(e.r, env, s1).val);
  }

  lemma {:induction false} CondRebuilt(env: Env, type0: IntType, e: Tree, typex: IntType, a: Tree, b: Tree)
    requires Input(type0, e, env) && e.Cond? && WfType(typex)
    requires type0.prec == type0.modeBits < e.ty.prec && typex.prec == typex.modeBits == type0.prec
    requires Means(a, typex, e.l, env) && Means(b, typex, e.r, env) && FrontEnd(a, type0.prec, env) && FrontEnd(b, type0.prec, env)
    ensures Rebuilt(Cond(typex, e.c, a, b), type0.prec, e, env)
  {
    var x := Cond(typex, e.c, a, b);
    forall s: int ensures Cong(type0.prec, Eval(e, env, s).val, Eval(x, env, s).val) && Eval(x, env, s).st == Eval(e, env, s).st {
      CondLow(env, e, typex, a, b, s);
    }
  }

  lemma {:induction false} ShiftedOut(type0: IntType, wide: IntType, v: int, c: int)
    requires type0.prec <= wide.prec && type0.prec <= c
    ensures Wrap(type0, Wrap(wide, ShiftLeft(v, c))) == Wrap(type0, 0)
  {
    var p := type0.prec;
    Pow2Add(c - p, p);
    assert ShiftLeft(v, c) == v * Pow2(c);
    Regroup(v, Pow2(c - p), Pow2(p));
    hide *;
    CongBy(p, v * Pow2(c), 0, v * Pow2(c - p));
    WrapCong(wide.prec, p, wide.uns, v * Pow2(c));
    WrapOfCong(type0, Wrap(wide, v * Pow2(c)), 0);
  }

  /** A shift by the whole width or more leaves nothing. */
  lemma {:induction false} ShiftedOutMeans(type0: IntType, e: Tree, zero: Tree, int0: IntType, env: Env)
    requires Input(type0, e, env) && e.Binary? && e.op.LShift? && e.r.Cst? && e.r.val >= type0.prec && type0.prec <= e.ty.prec
    requires Means(zero, type0, Cst(int0, 0), env)
    ensures Means(if SideEffects(e) then Compound(type0, e, zero) else zero, type0, e, env)
  {
    var r := if SideEffects(e) then Compound(type0, e, zero) else zero;
    assert Wf(r, env) && r.ty == type0;
    hide Wf, FrontEnd, Wrap, SideEffects;
    forall s: int ensures Eval(r, env, s) == Outcome(Wrap(type0, Eval(e, env, s).val), Eval(e, env, s).st) {
      ShiftedOut(type0, e.ty, Eval(e.l, env, s).val, e.r.val);
      assert Eval(e, env, s).val == Wrap(e.ty, ShiftLeft(Eval(e.l, env, s).val, e.r.val));
      assert forall u: int :: Eval(zero, env, u) == Outcome(Wrap(type0, 0), u);
      if !SideEffects(e) {
        NoEffects(e, env, s);
      }
    }
  }

  // ----- The conversion -----

  /** Converting any tree to any integer type gives a tree of that type whose value is the original
      value truncated to it, with the same side effects, if fold does its work on what it is given. */
  lemma {:induction false} ConvertMeans(t: Target, env: Env, type0: IntType, e: Tree)
    requires TargetOk(t) && Converts(t, env, type0, e)
    ensures Means(Convert(t, type0, e), type0, e, env) && Shaped(Convert(t, type0, e), type0, env)
    decreases t.depth, Work(type0, e), 3
  {
    if type0 == e.ty {
      SameMeans(e, env);
    } else {
      ConvertToIntegerMeans(t, env, type0, e);
      RightIs(t.fold, ConvertToInteger(t, type0, e), env);
      FoldMeans(t.fold, env, type0, ConvertToInteger(t, type0, e), e);
    }
  }

  lemma {:induction false} SameMeans(e: Tree, env: Env)
    requires Wf(e, env)
    ensures Means(e, e.ty, e, env)
  {
    forall s: int ensures Wrap(e.ty, Eval(e, env, s).val) == Eval(e, env, s).val {
      EvalInRange(e, env, s);
      WrapOfFitting(e.ty.prec, e.ty.uns, Eval(e, env, s).val);
    }
  }

  lemma {:induction false} ConvertToIntegerMeans(t: Target, env: Env, type0: IntType, e: Tree)
    requires TargetOk(t) && Input(type0, e, env) && type0 != e.ty && FoldsInside(t, type0, e, Right(t.fold, env))
    ensures Means(ConvertToInteger(t, type0, e), type0, e, env) && Shaped(ConvertToInteger(t, type0, e), type0, env)
    decreases t.depth, Work(type0, e), 2
  {
    if e.Compare? {
      CompareMeans(type0, e, env);
    } else if e.Truth? {
      ConvertMeans(t, env, type0, e.l);
      ConvertMeans(t, env, type0, e.r);
      TruthMeans(type0, e, Convert(t, type0, e.l), Convert(t, type0, e.r), env);
      TruthShaped(type0, e, Convert(t, type0, e.l), Convert(t, type0, e.r), env);
    } else if e.TruthNot? {
      ConvertMeans(t, env, type0, e.arg);
      TruthNotMeans(type0, e, Convert(t, type0, e.arg), env);
      TruthNotShaped(type0, e, Convert(t, type0, e.arg), env);
    } else if type0.prec >= e.ty.prec {
      NopMeans(type0, e, env);
    } else if Detours(type0) {
      var via := t.forMode(type0.modeBits, type0.uns);
      ConvertMeans(t, env, via, e);
      DetourMeans(type0, via, e, Convert(t, via, e), env);
    } else {
      NarrowMeans(t, env, type0, e);
    }
  }

  /** Converted truth values are 0 or 1. */
  lemma {:induction false} ConvertedTruth(type0: IntType, e: Tree, r: Tree, env: Env)
    requires WfType(type0) && HoldsOne(type0) && ZeroOrOne(e, env) && Means(r, type0, e, env)
    ensures ZeroOrOne(r, env)
  {
    hide Wrap, Wf;
    forall s: int ensures 0 <= Eval(r, env, s).val <= 1 {
      assert 0 <= Eval(e, env, s).val <= 1 && Eval(r, env, s).val == Wrap(type0, Eval(e, env, s).val);
      hide Eval, Means, ZeroOrOne;
      FlagValue(type0, Eval(e, env, s).val != 0);
    }
  }

  lemma {:induction false} TruthShaped(type0: IntType, e: Tree, l: Tree, r: Tree, env: Env)
    requires e.Truth? && Input(type0, e, env) && Means(l, type0, e.l, env) && Means(r, type0, e.r, env)
    requires Shaped(l, type0, env) && Shaped(r, type0, env)
    ensures Shaped(Truth(e.top, type0, l, r), type0, env)
  {
    if type0.prec == type0.modeBits {
      ConvertedTruth(type0, e.l, l, env);
      ConvertedTruth(type0, e.r, r, env);
    }
  }

  lemma {:induction false} TruthNotShaped(type0: IntType, e: Tree, a: Tree, env: Env)
    requires e.TruthNot? && Input(type0, e, env) && Means(a, type0, e.arg, env) && Shaped(a, type0, env)
    ensures Shaped(TruthNot(type0, a), type0, env)
  {
    if type0.prec == type0.modeBits {
      ConvertedTruth(type0, e.arg, a, env);
    }
  }

  lemma {:induction false} NarrowMeans(t: Target, env: Env, type0: IntType, e: Tree)
    requires TargetOk(t) && Input(type0, e, env)
    requires type0.prec < e.ty.prec && !Detours(type0) && !e.Compare? && !TruthLike(e)
    requires FoldsNarrow(t, type0, e, Right(t.fold, env))
    ensures Means(Narrow(t, type0, e), type0, e, env) && Shaped(Narrow(t, type0, e), type0, env)
    decreases t.depth, Work(type0, e), 1
  {
    hide Means, Eval, Wrap;
    var p := type0.prec;
    NopMeans(type0, e, env);
    match e
    case Binary(op, _, l, r) =>
      if Distributes(type0, e) {
        DistributeMeans(t, env, type0, e);
      } else if op.LShift? && r.Cst? && r.val >= 0 {
        ZeroMeans(t, env, type0);
        ShiftedOutMeans(type0, e, ConvertToInteger(t, type0, Cst(t.intType, 0)), t.intType, env);
      }
    case Unary(op, _, a) =>
      if op.Negate? || op.BitNot? {
        var typex := WorkType(t, type0, e.ty.uns);
        ConvertMeans(t, env, typex, a);
        UnaryRebuilt(env, type0, e, typex, Convert(t, typex, a));
        AgainMeans(t, env, type0, Unary(op, typex, Convert(t, typex, a)), e);
      }
    case Nop(_, a) =>
      UnwidenShape(a, p, env);
      ConvertMeans(t, env, type0, Unwiden(a, p));
      UnwidenedMeans(type0, a, Convert(t, type0, Unwiden(a, p)), p, env);
      NestedNopMeans(type0, e, Convert(t, type0, Unwiden(a, p)), env);
    case Cond(_, c, l, r) => CondNarrowMeans(t, env, type0, e);
    case _ =>
  }

  lemma {:induction false} ZeroMeans(t: Target, env: Env, type0: IntType)
    requires TargetOk(t) && WfType(type0) && !Detours(type0)
    ensures var zero := Cst(t.intType, 0);
      Means(ConvertToInteger(t, type0, zero), type0, zero, env) && FrontEnd(ConvertToInteger(t, type0, zero), type0.prec, env)
  {
    NopMeans(type0, Cst(t.intType, 0), env);
  }

  lemma {:induction false} CondNarrowMeans(t: Target, env: Env, type0: IntType, e: Tree)
    requires TargetOk(t) && Input(type0, e, env) && e.Cond?
    requires type0.prec < e.ty.prec && !Detours(type0) && FoldsNarrow(t, type0, e, Right(t.fold, env))
    ensures Means(Narrow(t, type0, e), type0, e, env) && Shaped(Narrow(t, type0, e), type0, env)
    decreases t.depth, Work(type0, e), 0
  {
    hide Means, Eval, Wrap;
    var p := type0.prec;
    var arg1, arg2 := Unwiden(e.l, p), Unwiden(e.r, p);
    if WorthIt(t, type0, e, arg1, arg2) {
      var typex := WorkType(t, type0, e.ty.uns);
      UnwidenShape(e.l, p, env);
      UnwidenShape(e.r, p, env);
      ConvertMeans(t, env, typex, arg1);
      ConvertMeans(t, env, typex, arg2);
      UnwidenedMeans(typex, e.l, Convert(t, typex, arg1), p, env);
      UnwidenedMeans(typex, e.r, Convert(t, typex, arg2), p, env);
      CondRebuilt(env, type0, e, typex, Convert(t, typex, arg1), Convert(t, typex, arg2));
      AgainMeans(t, env, type0, Cond(typex, e.c, Convert(t, typex, arg1), Convert(t, typex, arg2)), e);
    } else {
      NopMeans(type0, e, env);
    }
  }

  lemma {:induction false} DistributeMeans(t: Target, env: Env, type0: IntType, e: Tree)
    requires TargetOk(t) && Input(type0, e, env) && Distributes(type0, e)
    requires type0.prec < e.ty.prec && !Detours(type0) && FoldsBinary(t, type0, e, Right(t.fold, env))
    ensures Means(Distribute(t, type0, e), type0, e, env) && Shaped(Distribute(t, type0, e), type0, env)
    decreases t.depth, Work(type0, e), 0
  {
    hide Means, Eval, Wrap, Convert, Folds, Unwiden, Undistorted, Again, FoldsAgain;
    var p := type0.prec;
    var arg0, arg1 := Unwiden(e.l, p), Unwiden(e.r, p);
    if WorthIt(t, type0, e, arg0, arg1) {
      var typex := WorkType(t, type0, e.ty.uns || arg0.ty.uns || arg1.ty.uns);
      UnwidenShape(e.l, p, env);
      UnwidenShape(e.r, p, env);
      ConvertMeans(t, env, typex, arg0);
      ConvertMeans(t, env, typex, arg1);
      BinaryRebuilt(env, type0, e, typex, Convert(t, typex, arg0), Convert(t, typex, arg1));
      AgainMeans(t, env, type0, Binary(e.op, typex, Convert(t, typex, arg0), Convert(t, typex, arg1)), e);
    } else {
      NopMeans(type0, e, env);
    }
  }

  /** Folding the rebuilt tree and converting what it has become. */
  lemma {:induction false} AgainMeans(t: Target, env: Env, type0: IntType, b: Tree, e: Tree)
    requires TargetOk(t) && WfType(type0) && !Detours(type0) && Rebuilt(b, type0.prec, e, env)
    requires FoldsAgain(t, type0, b, Right(t.fold, env))
    ensures Means(Again(t, type0, t.fold(b)), type0, e, env) && Shaped(Again(t, type0, t.fold(b)), type0, env)
    decreases t.depth, 1, 0
  {
    var x := t.fold(b);
    RightIs(t.fold, b, env);
    hide Wf, Eval, Wrap, FrontEnd, Means, Folds, Convert;
    if Work(type0, x) == 0 {
      ConvertMeans(t, env, type0, x);
    } else if t.depth > 0 {
      ConvertMeans(Inside(t), env, type0, x);
    } else {
      NopMeans(type0, x, env);
      NopShaped(type0, x, env);
    }
    RebuiltMeans(type0, Again(t, type0, x), x, b, e, env);
  }

  lemma {:induction false} NopShaped(type0: IntType, e: Tree, env: Env)
    requires FrontEnd(e, type0.prec, env)
    ensures Shaped(Nop(type0, e), type0, env)
  {
  }
}
