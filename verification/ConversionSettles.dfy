/** Conversion to an integer type ends: what fold makes of a narrowed tree may be converted in turn, but
    not for ever, when fold does not enlarge what is still wide. */
module ConversionSettles {
  import opened IntegerTypes
  import opened Trees
  import opened IntegerConversion
  import opened LogicalFolding

  function Larger(a: nat, b: nat): nat {
    if a < b then b else a
  }

  /** The size of the largest part of a tree that has more than p bits and is neither a comparison nor
      a logical operation. */
  function Widest(p: nat, e: Tree): (n: nat)
    ensures n <= Size(e)
  {
    if !e.Compare? && !TruthLike(e) && e.ty.prec > p then Size(e)
    else match e
      case Cst(_, _) => 0
      case Leaf(_, _, _) => 0
      case Nop(_, a) => Widest(p, a)
      case Unary(_, _, a) => Widest(p, a)
      case Binary(_, _, l, r) => Larger(Widest(p, l), Widest(p, r))
      case Compare(_, _, l, r) => Larger(Widest(p, l), Widest(p, r))
      case Truth(_, _, l, r) => Larger(Widest(p, l), Widest(p, r))
      case TruthNot(_, a) => Widest(p, a)
      case Cond(_, c, l, r) => Larger(Widest(p, c), Larger(Widest(p, l), Widest(p, r)))
      case Compound(_, l, r) => Larger(Widest(p, l), Widest(p, r))
  }

  /** fold leaves nothing larger of more than p bits than it was given. */
  ghost function Steady(fold: Tree -> Tree, p: nat): Tree -> bool {
    (x: Tree) => Widest(p, fold(x)) <= Widest(p, x)
  }

  lemma {:induction false} SteadyIs(fold: Tree -> Tree, p: nat, x: Tree)
    requires Steady(fold, p)(x)
    ensures Widest(p, fold(x)) <= Widest(p, x)
  {
  }

  // ----- Nothing wide is added -----

  lemma {:induction false} NoWider(t: Target, type0: IntType, e: Tree)
    requires TargetOk(t) && WfType(type0) && Folds(t, type0, e, Steady(t.fold, type0.modeBits))
    ensures Widest(type0.modeBits, Convert(t, type0, e)) <= Widest(type0.modeBits, e)
    decreases t.depth, Work(type0, e), 3
  {
    if type0 != e.ty {
      NoWiderInside(t, type0, e);
      SteadyIs(t.fold, type0.modeBits, ConvertToInteger(t, type0, e));
    }
  }

  lemma {:induction false} NoWiderInside(t: Target, type0: IntType, e: Tree)
    requires TargetOk(t) && WfType(type0) && type0 != e.ty && FoldsInside(t, type0, e, Steady(t.fold, type0.modeBits))
    ensures Widest(type0.modeBits, ConvertToInteger(t, type0, e)) <= Widest(type0.modeBits, e)
    decreases t.depth, Work(type0, e), 2
  {
    var p := type0.modeBits;
    WidestOperands(p, type0, e);
    hide Widest, Convert, Folds, Narrow, FoldsNarrow;
    if e.Compare? {
    } else if e.Truth? {
      NoWider(t, type0, e.l);
      NoWider(t, type0, e.r);
      WidestTruth(p, type0, e.top, Convert(t, type0, e.l), Convert(t, type0, e.r));
    } else if e.TruthNot? {
      NoWider(t, type0, e.arg);
      WidestTruthNot(p, type0, Convert(t, type0, e.arg));
    } else if type0.prec < e.ty.prec {
      if Detours(type0) {
        var via := t.forMode(type0.modeBits, type0.uns);
        NoWider(t, via, e);
        WidestNarrowed(p, type0, Convert(t, via, e));
      } else {
        NoWiderNarrow(t, type0, e);
      }
    } else {
      WidestNarrowed(p, type0, e);
    }
  }

  lemma {:induction false} WidestOperands(p: nat, type0: IntType, e: Tree)
    ensures e.Compare? ==> Widest(p, Compare(e.cop, type0, e.l, e.r)) == Widest(p, e)
    ensures e.Truth? ==> Widest(p, e) == Larger(Widest(p, e.l), Widest(p, e.r))
    ensures e.TruthNot? ==> Widest(p, e) == Widest(p, e.arg)
    ensures !e.Compare? && !TruthLike(e) && e.ty.prec > p ==> Widest(p, e) == Size(e)
  {
  }

  lemma {:induction false} WidestTruth(p: nat, type0: IntType, op: TruthOp, l: Tree, r: Tree)
    ensures Widest(p, Truth(op, type0, l, r)) == Larger(Widest(p, l), Widest(p, r))
  {
  }

  lemma {:induction false} WidestTruthNot(p: nat, type0: IntType, a: Tree)
    ensures Widest(p, TruthNot(type0, a)) == Widest(p, a)
  {
  }

  lemma {:induction false} WidestNarrowed(p: nat, type0: IntType, r: Tree)
    requires type0.prec <= p
    ensures Widest(p, Nop(type0, r)) == Widest(p, r)
  {
  }

  /** The parts of a narrowed tree. */
  lemma {:induction false} WidestBelow(p: nat, typex: IntType, n: nat)
    requires typex.prec <= p
    ensures forall op: BinaryOp, l: Tree, r: Tree :: Widest(p, l) <= n && Widest(p, r) <= n ==> Widest(p, Binary(op, typex, l, r)) <= n
    ensures forall op: UnaryOp, a: Tree :: Widest(p, a) <= n ==> Widest(p, Unary(op, typex, a)) <= n
    ensures forall c: Tree, l: Tree, r: Tree :: Widest(p, c) <= n && Widest(p, l) <= n && Widest(p, r) <= n ==> Widest(p, Cond(typex, c, l, r)) <= n
  {
  }

  lemma {:induction false} ZeroIs(t: Target, type0: IntType)
    requires TargetOk(t) && !Detours(type0)
    ensures ConvertToInteger(t, type0, Cst(t.intType, 0)) == Nop(type0, Cst(t.intType, 0))
  {
  }

  lemma {:induction false} WidestNop(p: nat, type0: IntType, e: Tree, zero: Tree)
    requires type0.prec <= p
    ensures Widest(p, Nop(type0, e)) <= Size(e)
    ensures Widest(p, Compound(type0, e, Nop(type0, Cst(zero.ty, 0)))) <= Size(e) && Widest(p, Nop(type0, Cst(zero.ty, 0))) <= Size(e)
  {
  }

  lemma {:induction false} NoWiderNarrow(t: Target, type0: IntType, e: Tree)
    requires TargetOk(t) && WfType(type0) && type0.prec < e.ty.prec && !Detours(type0) && !e.Compare? && !TruthLike(e)
    requires FoldsNarrow(t, type0, e, Steady(t.fold, type0.modeBits))
    ensures Widest(type0.modeBits, Narrow(t, type0, e)) <= Size(e)
    decreases t.depth, Work(type0, e), 1
  {
    hide Widest, Convert, Folds, Unwiden;
    WidestNop(type0.prec, type0, e, Cst(t.intType, 0));
    ZeroIs(t, type0);
    match e
    case Binary(op, _, l, r) =>
      if Distributes(type0, e) {
        NoWiderBinary(t, type0, e);
      }
    case Unary(op, _, a) => NoWiderUnary(t, type0, e);
    case Nop(_, a) => NoWider(t, type0, Unwiden(a, type0.prec));
    case Cond(_, c, l, r) => NoWiderCond(t, type0, e);
    case _ =>
  }

  lemma {:induction false} NoWiderUnary(t: Target, type0: IntType, e: Tree)
    requires TargetOk(t) && WfType(type0) && type0.prec < e.ty.prec && !Detours(type0) && e.Unary?
    requires FoldsNarrow(t, type0, e, Steady(t.fold, type0.modeBits))
    ensures Widest(type0.modeBits, Narrow(t, type0, e)) <= Size(e)
    decreases t.depth, Work(type0, e), 0
  {
    hide Widest, Convert, Folds;
    if e.uop.Negate? || e.uop.BitNot? {
      var typex := WorkType(t, type0, e.ty.uns);
      NoWider(t, typex, e.arg);
      WidestBelow(type0.prec, typex, Size(e) - 1);
      NoWiderAgain(t, type0, Unary(e.uop, typex, Convert(t, typex, e.arg)));
    } else {
      WidestNop(type0.prec, type0, e, e);
    }
  }

  lemma {:induction false} NoWiderCond(t: Target, type0: IntType, e: Tree)
    requires TargetOk(t) && WfType(type0) && type0.prec < e.ty.prec && !Detours(type0) && e.Cond?
    requires FoldsNarrow(t, type0, e, Steady(t.fold, type0.modeBits))
    ensures Widest(type0.modeBits, Narrow(t, type0, e)) <= Size(e)
    decreases t.depth, Work(type0, e), 0
  {
    hide Widest, Convert, Folds, Unwiden;
    var arg1, arg2 := Unwiden(e.l, type0.prec), Unwiden(e.r, type0.prec);
    if WorthIt(t, type0, e, arg1, arg2) {
      var typex := WorkType(t, type0, e.ty.uns);
      NoWider(t, typex, arg1);
      NoWider(t, typex, arg2);
      WidestBelow(type0.prec, typex, Size(e) - 1);
      NoWiderAgain(t, type0, Cond(typex, e.c, Convert(t, typex, arg1), Convert(t, typex, arg2)));
    } else {
      WidestNop(type0.prec, type0, e, e);
    }
  }

  lemma {:induction false} NoWiderBinary(t: Target, type0: IntType, e: Tree)
    requires TargetOk(t) && WfType(type0) && type0.prec < e.ty.prec && !Detours(type0) && e.Binary?
    requires FoldsBinary(t, type0, e, Steady(t.fold, type0.modeBits))
    ensures Widest(type0.modeBits, Distribute(t, type0, e)) <= Size(e)
    decreases t.depth, Work(type0, e), 0
  {
    hide Widest, Convert, Folds, Unwiden;
    var arg0, arg1 := Unwiden(e.l, type0.prec), Unwiden(e.r, type0.prec);
    if WorthIt(t, type0, e, arg0, arg1) {
      var typex := WorkType(t, type0, e.ty.uns || arg0.ty.uns || arg1.ty.uns);
      NoWider(t, typex, arg0);
      NoWider(t, typex, arg1);
      WidestBelow(type0.prec, typex, Size(e) - 1);
      NoWiderAgain(t, type0, Binary(e.op, typex, Convert(t, typex, arg0), Convert(t, typex, arg1)));
    } else {
      WidestNop(type0.prec, type0, e, e);
    }
  }

  lemma {:induction false} NoWiderAgain(t: Target, type0: IntType, b: Tree)
    requires TargetOk(t) && WfType(type0) && FoldsAgain(t, type0, b, Steady(t.fold, type0.modeBits))
    ensures Widest(type0.modeBits, t.fold(b)) <= Widest(type0.modeBits, b)
    ensures Widest(type0.modeBits, Again(t, type0, t.fold(b))) <= Widest(type0.modeBits, b)
    decreases t.depth, 1, 0
  {
    var x := t.fold(b);
    SteadyIs(t.fold, type0.modeBits, b);
    if Work(type0, x) == 0 {
      NoWider(t, type0, x);
    } else if t.depth > 0 {
      NoWider(Inside(t), type0, x);
    }
  }

  // ----- More depth makes no difference -----

  function Deepened(t: Target, depth: nat): (r: Target)
    requires TargetOk(t)
    ensures TargetOk(r)
  {
    t.(depth := depth)
  }

  /** Conversion ends: with as much depth as the tree has wide parts within one another, at most its
      size, conversions within one another never run out of it, so that no greater depth gives another result. */
  lemma {:induction false} Settles(t: Target, depth: nat, type0: IntType, e: Tree)
    requires TargetOk(t) && WfType(type0) && Folds(t, type0, e, Steady(t.fold, type0.modeBits))
    requires Widest(type0.modeBits, e) <= t.depth <= depth
    ensures Convert(Deepened(t, depth), type0, e) == Convert(t, type0, e)
    decreases t.depth, Work(type0, e), 3
  {
    if type0 != e.ty {
      SettlesInside(t, depth, type0, e);
    }
  }

  lemma {:induction false} SettlesInside(t: Target, depth: nat, type0: IntType, e: Tree)
    requires TargetOk(t) && WfType(type0) && type0 != e.ty && FoldsInside(t, type0, e, Steady(t.fold, type0.modeBits))
    requires Widest(type0.modeBits, e) <= t.depth <= depth
    ensures ConvertToInteger(Deepened(t, depth), type0, e) == ConvertToInteger(t, type0, e)
    decreases t.depth, Work(type0, e), 2
  {
    WidestOperands(type0.modeBits, type0, e);
    hide Widest, Convert, Folds, Narrow, FoldsNarrow;
    if e.Compare? {
    } else if e.Truth? {
      Settles(t, depth, type0, e.l);
      Settles(t, depth, type0, e.r);
    } else if e.TruthNot? {
      Settles(t, depth, type0, e.arg);
    } else if type0.prec < e.ty.prec {
      if Detours(type0) {
        Settles(t, depth, t.forMode(type0.modeBits, type0.uns), e);
      } else {
        SettlesNarrow(t, depth, type0, e);
      }
    }
  }

  lemma {:induction false} SettlesNarrow(t: Target, depth: nat, type0: IntType, e: Tree)
    requires TargetOk(t) && WfType(type0) && type0.prec < e.ty.prec && !Detours(type0) && !e.Compare? && !TruthLike(e)
    requires FoldsNarrow(t, type0, e, Steady(t.fold, type0.modeBits)) && Size(e) <= t.depth <= depth
    ensures Narrow(Deepened(t, depth), type0, e) == Narrow(t, type0, e)
    decreases t.depth, Work(type0, e), 1
  {
    hide Widest, Convert, Folds, Unwiden;
    ZeroIs(t, type0);
    ZeroIs(Deepened(t, depth), type0);
    match e
    case Binary(op, _, l, r) =>
      if Distributes(type0, e) {
        SettlesBinary(t, depth, type0, e);
      }
    case Unary(op, _, a) => SettlesUnary(t, depth, type0, e);
    case Nop(_, a) => Settles(t, depth, type0, Unwiden(a, type0.prec));
    case Cond(_, c, l, r) => SettlesCond(t, depth, type0, e);
    case _ =>
  }

  lemma {:induction false} SettlesUnary(t: Target, depth: nat, type0: IntType, e: Tree)
    requires TargetOk(t) && WfType(type0) && type0.prec < e.ty.prec && !Detours(type0) && e.Unary?
    requires FoldsNarrow(t, type0, e, Steady(t.fold, type0.modeBits)) && Size(e) <= t.depth <= depth
    ensures Narrow(Deepened(t, depth), type0, e) == Narrow(t, type0, e)
    decreases t.depth, Work(type0, e), 0
  {
    hide Widest, Convert, Folds, Again, FoldsAgain;
    if e.uop.Negate? || e.uop.BitNot? {
      var typex := WorkType(t, type0, e.ty.uns);
      Settles(t, depth, typex, e.arg);
      NoWider(t, typex, e.arg);
      WidestBelow(type0.prec, typex, Size(e) - 1);
      SettlesAgain(t, depth, type0, Unary(e.uop, typex, Convert(t, typex, e.arg)));
    }
  }

  lemma {:induction false} SettlesCond(t: Target, depth: nat, type0: IntType, e: Tree)
    requires TargetOk(t) && WfType(type0) && type0.prec < e.ty.prec && !Detours(type0) && e.Cond?
    requires FoldsNarrow(t, type0, e, Steady(t.fold, type0.modeBits)) && Size(e) <= t.depth <= depth
    ensures Narrow(Deepened(t, depth), type0, e) == Narrow(t, type0, e)
    decreases t.depth, Work(type0, e), 0
  {
    hide Widest, Convert, Folds, Unwiden, Again, FoldsAgain;
    var arg1, arg2 := Unwiden(e.l, type0.prec), Unwiden(e.r, type0.prec);
    if WorthIt(t, type0, e, arg1, arg2) {
      var typex := WorkType(t, type0, e.ty.uns);
      Settles(t, depth, typex, arg1);
      Settles(t, depth, typex, arg2);
      NoWider(t, typex, arg1);
      NoWider(t, typex, arg2);
      WidestBelow(type0.prec, typex, Size(e) - 1);
      SettlesAgain(t, depth, type0, Cond(typex, e.c, Convert(t, typex, arg1), Convert(t, typex, arg2)));
    }
  }

  lemma {:induction false} SettlesBinary(t: Target, depth: nat, type0: IntType, e: Tree)
    requires TargetOk(t) && WfType(type0) && type0.prec < e.ty.prec && !Detours(type0) && e.Binary?
    requires FoldsBinary(t, type0, e, Steady(t.fold, type0.modeBits)) && Size(e) <= t.depth <= depth
    ensures Distribute(Deepened(t, depth), type0, e) == Distribute(t, type0, e)
    decreases t.depth, Work(type0, e), 0
  {
    hide Widest, Convert, Folds, Unwiden, Again, FoldsAgain;
    var arg0, arg1 := Unwiden(e.l, type0.prec), Unwiden(e.r, type0.prec);
    if WorthIt(t, type0, e, arg0, arg1) {
      var typex := WorkType(t, type0, e.ty.uns || arg0.ty.uns || arg1.ty.uns);
      Settles(t, depth, typex, arg0);
      Settles(t, depth, typex, arg1);
      NoWider(t, typex, arg0);
      NoWider(t, typex, arg1);
      WidestBelow(type0.prec, typex, Size(e) - 1);
      SettlesAgain(t, depth, type0, Binary(e.op, typex, Convert(t, typex, arg0), Convert(t, typex, arg1)));
    }
  }

  /** What fold has made has no wide part as large as the depth. */
  lemma {:induction false} SettlesAgain(t: Target, depth: nat, type0: IntType, b: Tree)
    requires TargetOk(t) && WfType(type0) && FoldsAgain(t, type0, b, Steady(t.fold, type0.modeBits))
    requires Widest(type0.modeBits, b) < t.depth <= depth
    ensures Again(Deepened(t, depth), type0, t.fold(b)) == Again(t, type0, t.fold(b))
    decreases t.depth, 1, 0
  {
    var x := t.fold(b);
    SteadyIs(t.fold, type0.modeBits, b);
    if Work(type0, x) == 0 {
      Settles(t, depth, type0, x);
    } else {
      Settles(Inside(t), depth - 1, type0, x);
      assert Inside(Deepened(t, depth)) == Deepened(Inside(t), depth - 1);
    }
  }

  // ----- The type asked for -----

  ghost function Typed(fold: Tree -> Tree): Tree -> bool {
    (x: Tree) => fold(x).ty == x.ty
  }

  /** The result has the type asked for, if fold keeps the type of what it is given. */
  lemma {:induction false} ConvertTyped(t: Target, type0: IntType, e: Tree)
    requires TargetOk(t) && Folds(t, type0, e, Typed(t.fold))
    ensures Convert(t, type0, e).ty == type0
    decreases t.depth, Work(type0, e), 3
  {
    if type0 != e.ty {
      if !e.Compare? && !TruthLike(e) && type0.prec < e.ty.prec && !Detours(type0) {
        hide Convert, Folds;
        NarrowTyped(t, type0, e);
      }
      assert Typed(t.fold)(ConvertToInteger(t, type0, e));
    }
  }

  lemma {:induction false} NarrowTyped(t: Target, type0: IntType, e: Tree)
    requires TargetOk(t) && type0.prec < e.ty.prec && !Detours(type0) && !e.Compare? && !TruthLike(e)
    requires FoldsNarrow(t, type0, e, Typed(t.fold))
    ensures Narrow(t, type0, e).ty == type0
    decreases t.depth, Work(type0, e), 1
  {
    hide Convert, Folds, FoldsAgain, Again, Unwiden;
    var p := type0.prec;
    ZeroIs(t, type0);
    match e
    case Binary(_, _, l, r) =>
      if Distributes(type0, e) {
        var arg0, arg1 := Unwiden(l, p), Unwiden(r, p);
        if WorthIt(t, type0, e, arg0, arg1) {
          var typex := WorkType(t, type0, e.ty.uns || arg0.ty.uns || arg1.ty.uns);
          AgainTyped(t, type0, Binary(e.op, typex, Convert(t, typex, arg0), Convert(t, typex, arg1)));
        }
      }
    case Unary(op, _, a) =>
      if op.Negate? || op.BitNot? {
        var typex := WorkType(t, type0, e.ty.uns);
        AgainTyped(t, type0, Unary(op, typex, Convert(t, typex, a)));
      }
    case Nop(_, a) => ConvertTyped(t, type0, Unwiden(a, p));
    case Cond(_, c, l, r) =>
      var arg1, arg2 := Unwiden(l, p), Unwiden(r, p);
      if WorthIt(t, type0, e, arg1, arg2) {
        var typex := WorkType(t, type0, e.ty.uns);
        AgainTyped(t, type0, Cond(typex, c, Convert(t, typex, arg1), Convert(t, typex, arg2)));
      }
    case _ =>
  }

  lemma {:induction false} AgainTyped(t: Target, type0: IntType, b: Tree)
    requires TargetOk(t) && FoldsAgain(t, type0, b, Typed(t.fold))
    ensures Again(t, type0, t.fold(b)).ty == type0
    decreases t.depth, 1, 0
  {
    var x := t.fold(b);
    if Work(type0, x) == 0 {
      ConvertTyped(t, type0, x);
    } else if t.depth > 0 {
      ConvertTyped(Inside(t), type0, x);
    }
  }

  // ----- A fold that makes logical operations -----

  lemma {:induction false} FoldsEvery(t: Target, type0: IntType, e: Tree, good: Tree -> bool)
    requires TargetOk(t) && forall x: Tree :: good(x)
    ensures Folds(t, type0, e, good)
    decreases t.depth, Work(type0, e), 3
  {
    if type0 != e.ty {
      FoldsEveryInside(t, type0, e, good);
    }
  }

  lemma {:induction false} FoldsEveryInside(t: Target, type0: IntType, e: Tree, good: Tree -> bool)
    requires TargetOk(t) && type0 != e.ty && forall x: Tree :: good(x)
    ensures FoldsInside(t, type0, e, good)
    decreases t.depth, Work(type0, e), 2
  {
    hide Folds, FoldsNarrow, FoldsBinary, FoldsAgain, Convert, Unwiden;
    if e.Compare? {
    } else if e.Truth? {
      FoldsEvery(t, type0, e.l, good);
      FoldsEvery(t, type0, e.r, good);
    } else if e.TruthNot? {
      FoldsEvery(t, type0, e.arg, good);
    } else if type0.prec < e.ty.prec {
      if Detours(type0) {
        FoldsEvery(t, t.forMode(type0.modeBits, type0.uns), e, good);
      } else {
        FoldsEveryNarrow(t, type0, e, good);
      }
    }
  }

  lemma {:induction false} FoldsEveryNarrow(t: Target, type0: IntType, e: Tree, good: Tree -> bool)
    requires TargetOk(t) && type0.prec < e.ty.prec && !Detours(type0) && !e.Compare? && !TruthLike(e) && forall x: Tree :: good(x)
    ensures FoldsNarrow(t, type0, e, good)
    decreases t.depth, Work(type0, e), 1
  {
    hide Folds, FoldsAgain, Convert, Unwiden;
    var p := type0.prec;
    match e
    case Binary(_, _, l, r) =>
      var arg0, arg1 := Unwiden(l, p), Unwiden(r, p);
      var typex := WorkType(t, type0, e.ty.uns || arg0.ty.uns || arg1.ty.uns);
      FoldsEvery(t, typex, arg0, good);
      FoldsEvery(t, typex, arg1, good);
      FoldsEveryAgain(t, type0, Binary(e.op, typex, Convert(t, typex, arg0), Convert(t, typex, arg1)), good);
    case Unary(op, _, a) =>
      var typex := WorkType(t, type0, e.ty.uns);
      FoldsEvery(t, typex, a, good);
      FoldsEveryAgain(t, type0, Unary(op, typex, Convert(t, typex, a)), good);
    case Nop(_, a) => FoldsEvery(t, type0, Unwiden(a, p), good);
    case Cond(_, c, l, r) =>
      var arg1, arg2 := Unwiden(l, p), Unwiden(r, p);
      var typex := WorkType(t, type0, e.ty.uns);
      FoldsEvery(t, typex, arg1, good);
      FoldsEvery(t, typex, arg2, good);
      FoldsEveryAgain(t, type0, Cond(typex, c, Convert(t, typex, arg1), Convert(t, typex, arg2)), good);
    case _ =>
  }

  lemma {:induction false} FoldsEveryAgain(t: Target, type0: IntType, b: Tree, good: Tree -> bool)
    requires TargetOk(t) && forall x: Tree :: good(x)
    ensures FoldsAgain(t, type0, b, good)
    decreases t.depth, 1, 0
  {
    var x := t.fold(b);
    if Work(type0, x) == 0 {
      FoldsEvery(t, type0, x, good);
    } else if t.depth > 0 {
      FoldsEvery(Inside(t), type0, x, good);
    }
  }

  /** With a fold that makes logical operations out of & and | of truth values, converting any tree ends. */
  lemma {:induction false} LogicalSettles(t: Target, depth: nat, type0: IntType, e: Tree)
    requires TargetOk(t) && WfType(type0) && t.fold == LogicalFold && Size(e) <= t.depth <= depth
    ensures Convert(Deepened(t, depth), type0, e) == Convert(t, type0, e)
  {
    var good := Steady(t.fold, type0.modeBits);
    forall x: Tree ensures good(x) {
      LogicalSteady(type0.modeBits, x);
    }
    FoldsEvery(t, type0, e, good);
    hide Convert, Folds, Steady;
    Settles(t, depth, type0, e);
  }

  lemma {:induction false} LogicalSteady(p: nat, x: Tree)
    ensures Widest(p, LogicalFold(x)) <= Widest(p, x)
  {
  }
}
