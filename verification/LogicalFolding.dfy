/** fold may make a logical operation out of what convert_to_integer has narrowed (fold-const.c). It
    is right in doing so, and the conversion goes on into it. */
module LogicalFolding {
  import opened IntegerTypes
  import opened Trees
  import opened IntegerConversion
  import opened IntegerConversionMeaning

  /** The logical operation fold makes out of & or | of truth values, which it may have stripped of
      conversions that change nothing, computes the same and can be converted again. */
  lemma {:induction false} LogicalBits(x: Tree, l: Tree, r: Tree, env: Env)
    requires x.Binary? && (x.op.BitAnd? || x.op.BitIor?) && Wf(x, env) && HoldsOne(x.ty)
    requires Wf(l, env) && Wf(r, env) && ZeroOrOne(l, env) && ZeroOrOne(r, env)
    requires forall s: int :: Eval(l, env, s) == Eval(x.l, env, s) && Eval(r, env, s) == Eval(x.r, env, s)
    ensures var y := Truth(if x.op.BitAnd? then TruthAnd else TruthOr, x.ty, l, r);
      SameTree(y, x, env) && forall p: nat :: FrontEnd(l, p, env) && FrontEnd(r, p, env) ==> FrontEnd(y, p, env)
  {
    var y := Truth(if x.op.BitAnd? then TruthAnd else TruthOr, x.ty, l, r);
    forall s: int ensures Eval(y, env, s) == Eval(x, env, s) {
      hide *;
      LogicalAt(x, l, r, env, s);
    }
    hide Eval;
  }

  lemma {:induction false} LogicalAt(x: Tree, l: Tree, r: Tree, env: Env, s: int)
    requires x.Binary? && (x.op.BitAnd? || x.op.BitIor?) && Wf(x, env) && ZeroOrOne(l, env) && ZeroOrOne(r, env)
    requires forall s: int :: Eval(l, env, s) == Eval(x.l, env, s) && Eval(r, env, s) == Eval(x.r, env, s)
    ensures Eval(Truth(if x.op.BitAnd? then TruthAnd else TruthOr, x.ty, l, r), env, s) == Eval(x, env, s)
  {
    assert WfType(x.ty);
    hide Wf, BitOp, Wrap;
    var u := Eval(x.l, env, s).st;
    var v, w := Eval(x.l, env, s).val, Eval(x.r, env, u).val;
    assert Eval(l, env, s) == Eval(x.l, env, s) && Eval(r, env, u) == Eval(x.r, env, u);
    assert Eval(x, env, s) == Outcome(Wrap(x.ty, BitOp(if x.op.BitAnd? then And else Ior, x.ty.prec, v, w)), Eval(x.r, env, u).st);
    hide BinaryValue, ZeroOrOne;
    BitOfTruth(x.ty.prec, v, w) by {
      assert 0 <= Eval(l, env, s).val <= 1 && 0 <= Eval(r, env, u).val <= 1;
    }
  }

  lemma {:induction false} BitOfTruth(p: nat, v: int, w: int)
    requires p >= 1 && 0 <= v <= 1 && 0 <= w <= 1
    ensures BitOp(And, p, v, w) == (if v != 0 && w != 0 then 1 else 0)
    ensures BitOp(Ior, p, v, w) == (if v != 0 || w != 0 then 1 else 0)
  {
    NoBits(p - 1);
    assert v / 2 == 0 && w / 2 == 0;
  }

  lemma {:induction false} NoBits(p: nat)
    ensures BitOp(And, p, 0, 0) == 0 && BitOp(Ior, p, 0, 0) == 0
    decreases p
  {
    if p > 0 {
      NoBits(p - 1);
    }
  }

  /** A fold that makes them, as the source does: of a truth value and a truth value or a mask with 1. */
  function LogicalFold(x: Tree): Tree {
    if x.Binary? && (x.op.BitAnd? || x.op.BitIor?) && HoldsOne(x.ty) &&
       ((TruthOperand(x.l) && (TruthOperand(x.r) || MaskOperand(x.r))) || (TruthOperand(x.r) && MaskOperand(x.l)))
    then Truth(if x.op.BitAnd? then TruthAnd else TruthOr, x.ty, x.l, x.r)
    else x
  }

  predicate TruthOperand(e: Tree) {
    (e.Compare? || TruthLike(e)) && HoldsOne(e.ty)
  }

  predicate MaskOperand(e: Tree) {
    e.Binary? && e.op.BitAnd? && HoldsOne(e.ty) &&
    match e.r
    case Cst(_, v) => v == 1
    case Nop(t, a) => HoldsOne(t) && a.Cst? && a.val == 1
    case _ => false
  }

  lemma {:induction false} TruthOperandIs(e: Tree, env: Env)
    requires (TruthOperand(e) || MaskOperand(e)) && Wf(e, env)
    ensures ZeroOrOne(e, env)
  {
    forall s: int ensures 0 <= Eval(e, env, s).val <= 1 {
      if TruthOperand(e) {
        FlagValue(e.ty, true);
        FlagValue(e.ty, false);
      } else {
        MaskIs(e, env, s);
      }
    }
  }

  lemma {:induction false} MaskIs(e: Tree, env: Env, s: int)
    requires MaskOperand(e) && Wf(e, env)
    ensures 0 <= Eval(e, env, s).val <= 1
  {
    var x := Eval(e.l, env, s);
    if e.r.Nop? {
      FlagValue(e.r.ty, true);
    }
    assert Eval(e.r, env, x.st).val == 1;
    assert Eval(e, env, s).val == Wrap(e.ty, BitOp(And, e.ty.prec, x.val, 1));
    hide Eval, Wrap, BitOp;
    OnesMasked(e.ty, x.val);
  }

  /** It is right on every tree. */
  lemma {:induction false} LogicalFoldRight(x: Tree, env: Env)
    requires Wf(x, env)
    ensures FoldsRight(LogicalFold, x, env)
  {
    if LogicalFold(x) != x {
      TruthOperandIs(x.l, env);
      TruthOperandIs(x.r, env);
      LogicalBits(x, x.l, x.r, env);
    }
    hide Eval, ZeroOrOne;
  }

  // ----- An example -----

  const CHAR := IntType(8, false, false, 8, 1)
  const SIGNED_CHAR := IntType(8, false, false, 8, 0)
  const INT := IntType(32, false, false, 32, 0)
  const LONG := IntType(64, false, false, 64, 0)

  /** (a < b) & (long) (z & 1) */
  function MaskedComparison(a: Tree, b: Tree, z: Tree): Tree {
    Binary(BitAnd, LONG, Compare(Lt, LONG, a, b), Nop(LONG, Binary(BitAnd, INT, z, Cst(INT, 1))))
  }

  function Folding(word: nat): Target {
    PlainTarget(word).(fold := LogicalFold, depth := 1)
  }

  /** z & 1 in type signed char. */
  function NarrowMask(z: Tree): Tree {
    Binary(BitAnd, SIGNED_CHAR, Nop(SIGNED_CHAR, z), Nop(SIGNED_CHAR, Cst(INT, 1)))
  }

  lemma {:induction false} FoldingOk(word: nat)
    ensures TargetOk(Folding(word)) && Folding(word).fold == LogicalFold && Folding(word).depth == 1
  {
    PlainTargetOk(word);
  }

  lemma {:induction false} GoodFold(x: Tree, env: Env)
    requires Wf(x, env)
    ensures Right(LogicalFold, env)(x)
  {
    LogicalFoldRight(x, env);
  }

  /** Trees converted by a NOP_EXPR. */
  lemma {:induction false} NopConverts(t: Target, type0: IntType, e: Tree, env: Env)
    requires TargetOk(t) && t.fold == LogicalFold && type0 != e.ty && Wf(Nop(type0, e), env) && !e.Compare? && !TruthLike(e)
    requires type0.prec >= e.ty.prec || (!Detours(type0) && (e.Leaf? || e.Cst?))
    ensures Convert(t, type0, e) == Nop(type0, e) && Folds(t, type0, e, Right(LogicalFold, env))
  {
    GoodFold(Nop(type0, e), env);
    assert type0.prec < e.ty.prec ==> Narrow(t, type0, e) == Nop(type0, e) && FoldsNarrow(t, type0, e, Right(LogicalFold, env));
    hide Right;
    assert ConvertToInteger(t, type0, e) == Nop(type0, e) && FoldsInside(t, type0, e, Right(LogicalFold, env));
  }

  lemma {:induction false} CompareConverts(t: Target, type0: IntType, e: Tree, env: Env)
    requires TargetOk(t) && t.fold == LogicalFold && type0 != e.ty && e.Compare? && Wf(Compare(e.cop, type0, e.l, e.r), env)
    ensures Convert(t, type0, e) == Compare(e.cop, type0, e.l, e.r) && Folds(t, type0, e, Right(LogicalFold, env))
  {
    GoodFold(Compare(e.cop, type0, e.l, e.r), env);
    hide Right;
    assert FoldsInside(t, type0, e, Right(LogicalFold, env));
  }

  /** An operation whose operands are converted to typex. */
  lemma {:induction false} AndConverts(t: Target, type0: IntType, e: Tree, typex: IntType, arg0: Tree, arg1: Tree, a: Tree, b: Tree, good: Tree -> bool)
    requires TargetOk(t) && e.Binary? && e.op.BitAnd? && !Detours(type0) && type0.prec < e.ty.prec
    requires arg0 == Unwiden(e.l, type0.prec) && arg1 == Unwiden(e.r, type0.prec)
    requires WorthIt(t, type0, e, arg0, arg1) && typex == WorkType(t, type0, e.ty.uns || arg0.ty.uns || arg1.ty.uns)
    requires a == Convert(t, typex, arg0) && b == Convert(t, typex, arg1)
    requires Folds(t, typex, arg0, good) && Folds(t, typex, arg1, good) && FoldsAgain(t, type0, Binary(BitAnd, typex, a, b), good)
    ensures ConvertToInteger(t, type0, e) == Again(t, type0, t.fold(Binary(BitAnd, typex, a, b)))
    ensures type0 != e.ty && FoldsInside(t, type0, e, good)
  {
    hide Convert, Folds, FoldsAgain, Again, Unwiden;
    assert Narrow(t, type0, e) == Distribute(t, type0, e) == Again(t, type0, t.fold(Binary(BitAnd, typex, a, b)));
    assert FoldsBinary(t, type0, e, good);
    assert FoldsNarrow(t, type0, e, good);
  }

  lemma {:induction false} AgainSame(t: Target, b: Tree, good: Tree -> bool)
    requires TargetOk(t) && t.fold(b).ty == b.ty && good(b)
    ensures Again(t, b.ty, t.fold(b)) == t.fold(b) && FoldsAgain(t, b.ty, b, good)
  {
  }

  lemma {:induction false} AgainInside(t: Target, type0: IntType, b: Tree, good: Tree -> bool)
    requires TargetOk(t) && t.depth > 0 && t.fold(b).ty != type0 && TruthLike(t.fold(b)) && good(b) && Folds(Inside(t), type0, t.fold(b), good)
    ensures Again(t, type0, t.fold(b)) == Convert(Inside(t), type0, t.fold(b)) && FoldsAgain(t, type0, b, good)
  {
    hide Convert, Folds;
  }

  lemma {:induction false} OneInRange()
    ensures InRange(INT, 1)
  {
    FlagValue(INT, true);
    assert Flag(INT, true) == 1;
  }

  lemma {:induction false} MaskTrees(id: nat, env: Env)
    ensures var z := Leaf(INT, id, false);
      && Wf(Nop(SIGNED_CHAR, z), env) && Wf(Nop(SIGNED_CHAR, Cst(INT, 1)), env) && Wf(NarrowMask(z), env)
      && Wf(Binary(BitAnd, INT, z, Cst(INT, 1)), env) && FrontEnd(Binary(BitAnd, INT, z, Cst(INT, 1)), 8, env)
  {
    var z, one := Leaf(INT, id, false), Cst(INT, 1);
    OneInRange();
    assert Wf(z, env) && Wf(one, env) && FrontEnd(z, 8, env) && FrontEnd(one, 8, env);
    assert Wf(Nop(SIGNED_CHAR, z), env) && Wf(Nop(SIGNED_CHAR, one), env);
  }

  lemma {:induction false} MaskNarrows(word: nat, id: nat, env: Env)
    ensures TargetOk(Folding(word))
    ensures var mask := Binary(BitAnd, INT, Leaf(INT, id, false), Cst(INT, 1));
      && Convert(Folding(word), SIGNED_CHAR, mask) == NarrowMask(Leaf(INT, id, false))
      && Folds(Folding(word), SIGNED_CHAR, mask, Right(LogicalFold, env))
  {
    var t, z, one, good := Folding(word), Leaf(INT, id, false), Cst(INT, 1), Right(LogicalFold, env);
    var mask, m := Binary(BitAnd, INT, z, one), NarrowMask(z);
    FoldingOk(word);
    MaskTrees(id, env);
    assert Unwiden(z, 8) == z && Unwiden(one, 8) == one && WorkType(t, SIGNED_CHAR, false) == SIGNED_CHAR;
    assert t.fold(m) == m;
    hide TargetOk, Wf, FrontEnd, LogicalFold, Right, Unwiden;
    GoodFold(m, env);
    NopConverts(t, SIGNED_CHAR, z, env);
    NopConverts(t, SIGNED_CHAR, one, env);
    AgainSame(t, m, good);
    hide Folds, FoldsAgain, Again, Convert;
    AndConverts(t, SIGNED_CHAR, mask, SIGNED_CHAR, z, one, m.l, m.r, good);
  }

  /** What the example is converted to. */
  function Expected(a: Tree, b: Tree, z: Tree): Tree {
    Truth(TruthAnd, CHAR, Compare(Lt, CHAR, a, b), Nop(CHAR, NarrowMask(z)))
  }

  lemma {:induction false} ExampleTrees(a: Tree, b: Tree, id: nat, env: Env)
    requires Wf(a, env) && Wf(b, env)
    ensures var c, m := Compare(Lt, SIGNED_CHAR, a, b), NarrowMask(Leaf(INT, id, false));
      && Wf(c, env) && Wf(m, env) && Wf(Nop(CHAR, m), env) && Wf(Compare(Lt, CHAR, a, b), env) && Wf(Binary(BitAnd, SIGNED_CHAR, c, m), env)
      && Wf(Expected(a, b, Leaf(INT, id, false)), env)
  {
    var m, l := NarrowMask(Leaf(INT, id, false)), Compare(Lt, CHAR, a, b);
    MaskTrees(id, env);
    assert TruthOperand(l) && MaskOperand(m) && Wf(l, env);
    hide NarrowMask, FrontEnd, Eval;
    TruthOperandIs(l, env);
    TruthOperandIs(m, env);
    NopMeans(CHAR, m, env);
    ConvertedTruth(CHAR, m, Nop(CHAR, m), env);
    ZeroOrOneIsTruth(l, env);
    ZeroOrOneIsTruth(Nop(CHAR, m), env);
  }

  lemma {:induction false} ZeroOrOneIsTruth(e: Tree, env: Env)
    requires ZeroOrOne(e, env)
    ensures TruthValued(e, env)
  {
  }

  /** Converting the logical operation fold has made. */
  lemma {:induction false} LogicalConverts(t: Target, a: Tree, b: Tree, z: Tree, env: Env)
    requires TargetOk(t) && t.fold == LogicalFold && Wf(Nop(CHAR, NarrowMask(z)), env) && Wf(Compare(Lt, CHAR, a, b), env) && Wf(Expected(a, b, z), env)
    ensures var x := Truth(TruthAnd, SIGNED_CHAR, Compare(Lt, SIGNED_CHAR, a, b), NarrowMask(z));
      Convert(t, CHAR, x) == Expected(a, b, z) && Folds(t, CHAR, x, Right(LogicalFold, env))
  {
    var m, c := NarrowMask(z), Compare(Lt, SIGNED_CHAR, a, b);
    var x := Truth(TruthAnd, SIGNED_CHAR, c, m);
    hide Wf, Right;
    NopConverts(t, CHAR, m, env);
    CompareConverts(t, CHAR, c, env);
    GoodFold(Expected(a, b, z), env);
    assert t.fold(Expected(a, b, z)) == Expected(a, b, z);
    hide LogicalFold;
    assert ConvertToInteger(t, CHAR, x) == Expected(a, b, z) && FoldsInside(t, CHAR, x, Right(LogicalFold, env));
  }

  lemma {:induction false} ExampleInput(a: Tree, b: Tree, id: nat, env: Env)
    requires Wf(a, env) && Wf(b, env) && FrontEnd(a, 8, env) && FrontEnd(b, 8, env)
    ensures var e := MaskedComparison(a, b, Leaf(INT, id, false)); Wf(e, env) && FrontEnd(e, 8, env)
  {
    var e := MaskedComparison(a, b, Leaf(INT, id, false));
    MaskTrees(id, env);
    assert Wf(e.l, env) && FrontEnd(e.l, 8, env);
    assert Wf(e.r, env) && FrontEnd(e.r, 8, env);
  }

  lemma {:induction false} ExampleStripped(word: nat, a: Tree, b: Tree, z: Tree)
    requires z.Leaf? && z.ty == INT
    ensures var e := MaskedComparison(a, b, z);
      && Unwiden(e.l, 8) == e.l && Unwiden(e.r, 8) == Binary(BitAnd, INT, z, Cst(INT, 1))
      && TargetOk(Folding(word)) && WorkType(Folding(word), CHAR, false) == SIGNED_CHAR
  {
    var mask := Binary(BitAnd, INT, z, Cst(INT, 1));
    assert UnwidenFrom(mask, mask, false, 8) == mask;
  }

  /** Converted to char, the expression is a logical operation in the end: fold has made one of the
      narrowed operands, and its operands were converted again. It is an input ConvertMeans is about. */
  lemma {:induction false} LogicalInTheEnd(word: nat, a: Tree, b: Tree, id: nat, env: Env)
    requires Wf(a, env) && Wf(b, env) && FrontEnd(a, 8, env) && FrontEnd(b, 8, env)
    ensures var e := MaskedComparison(a, b, Leaf(INT, id, false));
      TargetOk(Folding(word)) && Convert(Folding(word), CHAR, e) == Expected(a, b, Leaf(INT, id, false)) && Converts(Folding(word), env, CHAR, e)
  {
    var t, z, good := Folding(word), Leaf(INT, id, false), Right(LogicalFold, env);
    var e, mask := MaskedComparison(a, b, z), Binary(BitAnd, INT, z, Cst(INT, 1));
    var c, m := Compare(Lt, SIGNED_CHAR, a, b), NarrowMask(z);
    var x := Binary(BitAnd, SIGNED_CHAR, c, m);
    assert LogicalFold(x) == Truth(TruthAnd, SIGNED_CHAR, c, m) && LogicalFold(Expected(a, b, z)) == Expected(a, b, z);
    hide LogicalFold, NarrowMask, Wf, FrontEnd, Unwiden, Right, TargetOk, Folds, FoldsAgain, Again, Convert, WorkType, Expected, FoldsInside, ConvertToInteger;
    FoldingOk(word);
    ExampleInput(a, b, id, env);
    ExampleStripped(word, a, b, z);
    ExampleTrees(a, b, id, env);
    CompareConverts(t, SIGNED_CHAR, e.l, env);
    MaskNarrows(word, id, env);
    GoodFold(x, env);
    GoodFold(Expected(a, b, z), env);
    LogicalConverts(Inside(t), a, b, z, env);
    AgainInside(t, CHAR, x, good);
    AndConverts(t, CHAR, e, SIGNED_CHAR, e.l, mask, c, m, good);
    ExampleWhole(t, e, env, Expected(a, b, z));
  }

  lemma {:induction false} ExampleWhole(t: Target, e: Tree, env: Env, r: Tree)
    requires TargetOk(t) && t.fold == LogicalFold && e.ty != CHAR && ConvertToInteger(t, CHAR, e) == r && LogicalFold(r) == r
    requires FoldsInside(t, CHAR, e, Right(LogicalFold, env)) && Right(LogicalFold, env)(r) && Wf(e, env) && FrontEnd(e, 8, env)
    ensures Convert(t, CHAR, e) == r && Converts(t, env, CHAR, e)
  {
    hide Right, LogicalFold, Wf, FrontEnd, ConvertToInteger, FoldsInside;
  }
}
