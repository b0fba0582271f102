/** Shortening a comparison preserves its truth value, and exactly when. */
module ComparisonShorteningMeaning {
  import opened IntegerTypes
  import opened Trees
  import opened IntegerConversion
  import opened IntegerConversionMeaning
  import opened ComparisonShortening

  /** A truth value and the program state it is reached in. */
  datatype Answer = Answer(holds: bool, st: int)

  function AnswerOf(x: Shortened, env: Env, s: int): Answer {
    match x
    case Decided(v) => var o := Eval(v, env, s); Answer(o.val != 0, o.st)
    case Comparison(code, l, r) =>
      var o := Eval(l, env, s);
      var q := Eval(r, env, o.st);
      Answer(Holds(code, o.val, q.val), q.st)
  }

  /** The comparison asked for: both operands converted to the nominal type. */
  function Asked(code: CompareOp, restype: IntType, op0: Tree, op1: Tree, env: Env, s: int): Answer {
    var o := Eval(op0, env, s);
    var q := Eval(op1, env, o.st);
    Answer(Holds(code, Wrap(restype, o.val), Wrap(restype, q.val)), q.st)
  }

  /** The value shorten_compare takes an operand to have. */
  function Apparent(a: Operand, env: Env, s: int): int {
    WrapTo(a.prim.ty.prec, a.uns, Eval(a.prim, env, s).val)
  }

  // ----- get_narrower -----

  /** get_narrower strips conversions only, keeps effects, and zero- or sign-extending what it
      returns, as it says, gives back the operand. */
  lemma {:induction false} NarrowerFromExtends(op: Tree, uns: bool, first: bool, p: nat, v: int, env: Env, s: int)
    requires Wf(op, env) && op.ty.prec <= p
    requires if first then op.ty.prec == p && v == Eval(op, env, s).val
             else Cong(p, v, WrapTo(op.ty.prec, uns, Eval(op, env, s).val))
    ensures var (r, u) := NarrowerFrom(op, uns, first);
      && Eval(r, env, s).st == Eval(op, env, s).st && r.ty.prec <= op.ty.prec
      && ((first && r == op) || Cong(p, v, WrapTo(r.ty.prec, u, Eval(r, env, s).val)))
    decreases op
  {
    if op.Nop? && op.ty.prec >= op.arg.ty.prec && !(op.ty.prec > op.arg.ty.prec && !first && uns != op.arg.ty.uns) {
      var inner := op.arg;
      NarrowerInside(op, uns, first, p, v, env, s);
      NarrowerFromExtends(inner, if first then inner.ty.uns else uns, false, p, v, env, s);
    }
  }

  lemma {:induction false} NarrowerInside(op: Tree, uns: bool, first: bool, p: nat, v: int, env: Env, s: int)
    requires op.Nop? && Wf(op, env) && op.arg.ty.prec <= op.ty.prec <= p
    requires first || op.ty.prec == op.arg.ty.prec || uns == op.arg.ty.uns
    requires if first then op.ty.prec == p && v == Eval(op, env, s).val
             else Cong(p, v, WrapTo(op.ty.prec, uns, Eval(op, env, s).val))
    ensures Cong(p, v, WrapTo(op.arg.ty.prec, if first then op.arg.ty.uns else uns, Eval(op.arg, env, s).val))
  {
    var x := Eval(op.arg, env, s).val;
    var q, n := op.ty.prec, op.arg.ty.prec;
    EvalInRange(op.arg, env, s);
    if first {
      WrapOfFitting(n, op.arg.ty.uns, x);
      WrapCong(p, p, op.ty.uns, x);
    } else {
      WrapCong(q, q, op.ty.uns, x);
      CongWrap(q, uns, Wrap(op.ty, x), x);
      if n < q {
        WrapOfFitting(n, uns, x);
        FitsWider(n, uns, q, uns, x);
        WrapOfFitting(q, uns, x);
      }
    }
  }

  lemma {:induction false} NarrowerFromWf(op: Tree, uns: bool, first: bool, env: Env)
    requires Wf(op, env)
    ensures var r := NarrowerFrom(op, uns, first).0;
      Wf(r, env) && (TreeConstant(r) <==> TreeConstant(op)) && Size(r) <= Size(op)
    decreases op
  {
    if op.Nop? && op.ty.prec >= op.arg.ty.prec && !(op.ty.prec > op.arg.ty.prec && !first && uns != op.arg.ty.uns) {
      NarrowerFromWf(op.arg, if first then op.arg.ty.uns else uns, false, env);
    }
  }

  /** The conversion of the operand to the nominal type is not the single extension it is taken for:
      it changes signedness on the way. */
  predicate Mismatched(a: Operand, restype: IntType) {
    a.prim != a.op && a.op.ty.prec < restype.prec &&
    ((!a.uns && a.op.ty.uns) || (a.uns && !a.op.ty.uns && a.prim.ty.prec == a.op.ty.prec))
  }

  lemma {:induction false} LookApparent(op: Tree, restype: IntType, env: Env, s: int)
    requires Wf(op, env) && op.ty.prec <= restype.prec
    ensures var a := Look(op, restype);
      && a.op == op && Wf(a.prim, env) && a.prim.ty.prec <= op.ty.prec
      && Eval(a.prim, env, s).st == Eval(op, env, s).st
      && (TreeConstant(a.prim) <==> TreeConstant(op))
      && Wrap(restype, Eval(op, env, s).val) == Wrap(restype, if Mismatched(a, restype) then Wrap(op.ty, Apparent(a, env, s)) else Apparent(a, env, s))
  {
    var a := Look(op, restype);
    var v, x := Eval(op, env, s).val, Eval(a.prim, env, s).val;
    var p, n, q := op.ty.prec, restype.prec, a.prim.ty.prec;
    NarrowerFromExtends(op, false, true, p, v, env, s);
    NarrowerFromWf(op, false, true, env);
    EvalInRange(op, env, s);
    if a.prim == op {
      if op.ty != restype {
        WrapOfFitting(p, a.uns, v);
      } else {
        WrapCong(p, p, a.uns, v);
        CongWrap(n, restype.uns, WrapTo(p, a.uns, v), v);
      }
    } else {
      assert Cong(p, v, Apparent(a, env, s));
      if p == n {
        CongWrap(n, restype.uns, v, Apparent(a, env, s));
      } else if Mismatched(a, restype) {
        CongWrap(p, op.ty.uns, v, Apparent(a, env, s));
        WrapOfFitting(p, op.ty.uns, v);
      } else {
        WrapFits(q, a.uns, x);
        if q < p {
          FitsWider(q, a.uns, p, op.ty.uns, Apparent(a, env, s));
        }
        CongWrap(p, op.ty.uns, v, Apparent(a, env, s));
        WrapOfFitting(p, op.ty.uns, v);
        WrapOfFitting(p, op.ty.uns, Apparent(a, env, s));
      }
    }
  }

  // ----- Against a constant -----

  lemma {:induction false} DecideRight(code: CompareOp, c: int, least: int, greatest: int, a: int)
    requires least <= a <= greatest
    ensures Decide(code, c, least, greatest).Always? ==> Holds(code, a, c) == Decide(code, c, least, greatest).b
    ensures Decide(code, c, least, greatest).Unknown? ==> least <= c <= greatest
  {
  }

  /** Signed values compare as unsigned the same way in any width that holds them. */
  lemma {:induction false} UnsignedOrder(p: nat, n: nat, a: int, c: int)
    requires 1 <= p <= n && Fits(p, false, a) && Fits(p, false, c)
    ensures forall code: CompareOp :: Holds(code, Bits(p, a), Bits(p, c)) == Holds(code, Bits(n, a), Bits(n, c))
  {
    Pow2Mono(p, n);
    Pow2Mono(p - 1, n - 1);
    BitsOfFitting(p, false, a);
    BitsOfFitting(p, false, c);
    BitsOfFitting(n, false, a);
    BitsOfFitting(n, false, c);
  }

  /** When signed values have a fixed order with c, their unsigned order only tests the sign. */
  lemma {:induction false} SignTest(p: nat, n: nat, code: CompareOp, a: int, c: int)
    requires 1 <= p < n && Fits(p, false, a) && Fits(n, false, c)
    requires Decide(code, c, -Pow2(p - 1), Pow2(p - 1) - 1).Always? && !code.Eq? && !code.Ne?
    ensures var k := if code.Lt? || code.Ge? then -Pow2(p - 1) else Pow2(p - 1) - 1;
      Holds(code, Bits(p, a), Bits(p, k)) == Holds(code, Bits(n, a), Bits(n, c))
  {
    Pow2Mono(p - 1, n - 1);
    BitsOfFitting(p, false, a);
    BitsOfFitting(n, false, a);
    BitsOfFitting(n, false, c);
    BitsOfFitting(p, false, -Pow2(p - 1));
    BitsOfFitting(p, false, Pow2(p - 1) - 1);
  }

  /** The answer shorten_compare's arithmetic stands for, on the values alone. */
  function ConstantAnswer(p: nat, uns: bool, n: nat, nUns: bool, code: CompareOp, x: int, v: int): bool
    requires p >= 1
  {
    var reversed := nUns && !uns;
    var c := WrapTo(n, nUns && uns, v);
    var least, greatest := if uns then 0 else -Pow2(p - 1), if uns then Pow2(p) - 1 else Pow2(p - 1) - 1;
    var verdict := Decide(code, c, least, greatest);
    var inequality := !code.Eq? && !code.Ne?;
    if verdict.Always? && !(reversed && inequality) then verdict.b
    else
      var k := if verdict.Always? then if code.Lt? || code.Ge? then least else greatest else c;
      Holds(code, WrapTo(p, uns || reversed, x), WrapTo(p, uns || reversed, k))
  }

  lemma {:induction false} ConstantAnswerRight(p: nat, uns: bool, n: nat, nUns: bool, code: CompareOp, x: int, v: int)
    requires 1 <= p < n
    ensures ConstantAnswer(p, uns, n, nUns, code, x, v) == Holds(code, WrapTo(n, nUns, WrapTo(p, uns, x)), WrapTo(n, nUns, v))
  {
    var a := WrapTo(p, uns, x);
    var c := WrapTo(n, nUns && uns, v);
    var least, greatest := if uns then 0 else -Pow2(p - 1), if uns then Pow2(p) - 1 else Pow2(p - 1) - 1;
    WrapFits(p, uns, x);
    WrapFits(n, nUns && uns, v);
    DecideRight(code, c, least, greatest, a);
    FitsWider(p, uns, n, nUns && uns, a);
    if !(nUns && !uns) {
      WrapOfFitting(n, nUns, a);
      if Decide(code, c, least, greatest).Unknown? {
        WrapOfFitting(p, uns, c);
      }
    } else {
      WrapCong(p, p, false, x);
      WrapCong(n, n, false, v);
      if Decide(code, c, least, greatest).Unknown? {
        UnsignedOrder(p, n, a, c);
      } else if !code.Eq? && !code.Ne? {
        SignTest(p, n, code, a, c);
      } else {
        BitsOfFitting(n, false, a);
        BitsOfFitting(n, false, c);
      }
    }
  }

  /** A comparison of the variable operand with a constant, both converted to type1. */
  lemma {:induction false} AgainstMeans(t: Target, env: Env, prim: Tree, type1: IntType, k: Tree, code: CompareOp, s: int)
    requires TargetOk(t) && Converts(t, env, type1, prim) && k.Cst? && InRange(k.ty, k.val)
    ensures AnswerOf(Comparison(code, Convert(t, type1, prim), ConvertConstant(type1, k)), env, s) ==
      Answer(Holds(code, Wrap(type1, Eval(prim, env, s).val), Wrap(type1, k.val)), Eval(prim, env, s).st)
  {
    ConvertMeans(t, env, type1, prim);
    ConstantConverts(type1, k, env);
    assert Eval(Convert(t, type1, prim), env, s) == Outcome(Wrap(type1, Eval(prim, env, s).val), Eval(prim, env, s).st);
    hide Convert, Wf, FrontEnd, Wrap, Folds, ConvertConstant;
  }

  /** What AgainstConstant returns, case by case. */
  ghost predicate Cases(t: Target, a: Operand, b: Operand, restype: IntType, code: CompareOp, verdict: Verdict, k: Tree)
    requires TargetOk(t) && a.prim.ty.prec >= 1 && b.prim.Cst?
  {
    var p, n, uns := a.prim.ty.prec, restype.prec, a.uns;
    var reversed := restype.uns && !uns;
    var inequality := !code.Eq? && !code.Ne?;
    var least, greatest := if uns then 0 else -Pow2(p - 1), if uns then Pow2(p) - 1 else Pow2(p - 1) - 1;
    var c, type1 := WrapTo(n, restype.uns && uns, b.prim.val), ComparedIn(t, a, restype);
    && verdict == Decide(code, c, least, greatest)
    && type1.prec == p && type1.uns == (uns || reversed) && k.Cst? && InRange(k.ty, k.val)
    && (verdict.Unknown? ==> k.val == c)
    && (verdict.Always? && reversed && inequality ==> k.val == if code.Lt? || code.Ge? then least else greatest)
    && AgainstConstant(t, a, b, restype, code) ==
         if verdict.Always? && !(reversed && inequality) then Decided(KeepEffects(a.prim, BooleanNode(t, verdict.b)))
         else Comparison(code, Convert(t, type1, a.prim), ConvertConstant(type1, k))
  }

  lemma {:induction false} AgainstConstantCases(t: Target, a: Operand, b: Operand, restype: IntType, code: CompareOp)
    returns (verdict: Verdict, k: Tree)
    requires TargetOk(t) && WfType(restype) && !Detours(restype) && WfType(a.prim.ty) && a.prim.ty.prec == a.prim.ty.modeBits && b.prim.Cst? && InRange(b.prim.ty, b.prim.val) && a.prim.ty.prec < restype.prec
    ensures Cases(t, a, b, restype, code, verdict, k)
  {
    var type0 := SignedOrUnsigned(t, a.uns, a.prim.ty);
    var signReversed := restype.uns && !a.uns;
    var nominal := if signReversed then t.signedOf(restype) else restype;
    BoundsConvert(nominal, type0);
    ConstantConverts(nominal, b.prim, Env((i: nat, s: int) => 0, (i: nat, s: int) => 0, (c: nat, v: int, w: int) => 0));
    var c := ConvertConstant(nominal, b.prim);
    WrapFits(nominal.prec, nominal.uns, b.prim.val);
    assert c.val == WrapTo(restype.prec, restype.uns && a.uns, b.prim.val) && InRange(nominal, c.val);
    assert Wrap(nominal, MinValue(type0)) == MinValue(type0) && Wrap(nominal, MaxValue(type0)) == MaxValue(type0);
    verdict := Decide(code, c.val, MinValue(type0), MaxValue(type0));
    var inequality := !code.Eq? && !code.Ne?;
    k := if signReversed && verdict.Always? && inequality
         then Cst(type0, if code.Lt? || code.Ge? then MinValue(type0) else MaxValue(type0)) else c;
    hide Convert, Wrap, WrapTo, Decide, SideEffects, Pow2, KeepEffects, BooleanNode;
  }

  lemma {:induction false} CasesAnswer(t: Target, env: Env, a: Operand, b: Operand, restype: IntType, code: CompareOp, verdict: Verdict, k: Tree, s: int)
    requires TargetOk(t) && Converts(t, env, ComparedIn(t, a, restype), a.prim) && b.prim.Cst? && 1 <= a.prim.ty.prec < restype.prec
    requires Cases(t, a, b, restype, code, verdict, k)
    ensures AnswerOf(AgainstConstant(t, a, b, restype, code), env, s) ==
      Answer(ConstantAnswer(a.prim.ty.prec, a.uns, restype.prec, restype.uns, code, Eval(a.prim, env, s).val, b.prim.val), Eval(a.prim, env, s).st)
  {
    hide Convert, WrapTo, Decide, SideEffects, AgainstConstant, ConvertConstant, Eval, Wf, FrontEnd, Folds, Pow2, TargetOk, ComparedIn;
    if verdict.Always? && !(restype.uns && !a.uns && !code.Eq? && !code.Ne?) {
      DecidedMeans(t, a.prim, verdict.b, env, s);
    } else {
      AgainstMeans(t, env, a.prim, ComparedIn(t, a, restype), k, code, s);
    }
  }

  lemma {:induction false} AgainstConstantMeans(t: Target, env: Env, a: Operand, b: Operand, restype: IntType, code: CompareOp, s: int)
    requires TargetOk(t) && WfType(restype) && !Detours(restype) && Converts(t, env, ComparedIn(t, a, restype), a.prim) && Wf(b.prim, env)
    requires b.prim.Cst? && a.prim.ty.prec == a.prim.ty.modeBits < restype.prec
    ensures AnswerOf(AgainstConstant(t, a, b, restype, code), env, s) ==
      Answer(Holds(code, Wrap(restype, Apparent(a, env, s)), Wrap(restype, b.prim.val)), Eval(a.prim, env, s).st)
  {
    var verdict, k := AgainstConstantCases(t, a, b, restype, code);
    ConstantAnswerRight(a.prim.ty.prec, a.uns, restype.prec, restype.uns, code, Eval(a.prim, env, s).val, b.prim.val);
    CasesAnswer(t, env, a, b, restype, code, verdict, k, s);
  }

  lemma {:induction false} BoundsConvert(nominal: IntType, type0: IntType)
    requires WfType(nominal) && WfType(type0) && type0.prec < nominal.prec && (nominal.uns ==> type0.uns)
    ensures Wrap(nominal, MinValue(type0)) == MinValue(type0) && Wrap(nominal, MaxValue(type0)) == MaxValue(type0)
  {
    FitsWider(type0.prec, type0.uns, nominal.prec, nominal.uns, MinValue(type0));
    FitsWider(type0.prec, type0.uns, nominal.prec, nominal.uns, MaxValue(type0));
    WrapOfFitting(nominal.prec, nominal.uns, MinValue(type0));
    WrapOfFitting(nominal.prec, nominal.uns, MaxValue(type0));
  }

  lemma {:induction false} ConstantConverts(x: IntType, c: Tree, env: Env)
    requires c.Cst? && InRange(c.ty, c.val)
    ensures ConvertConstant(x, c).val == Wrap(x, c.val)
    ensures forall s: int :: Eval(ConvertConstant(x, c), env, s) == Outcome(Wrap(x, c.val), s)
  {
    WrapOfFitting(c.ty.prec, c.ty.uns, c.val);
  }

  lemma {:induction false} DecidedMeans(t: Target, prim: Tree, b: bool, env: Env, s: int)
    ensures AnswerOf(Decided(KeepEffects(prim, BooleanNode(t, b))), env, s) == Answer(b, Eval(prim, env, s).st)
  {
    var value := BooleanNode(t, b);
    if SideEffects(prim) {
      assert Eval(Compound(value.ty, prim, value), env, s) == Eval(value, env, Eval(prim, env, s).st);
    } else {
      NoEffects(prim, env, s);
    }
  }

  // ----- Both narrow -----

  lemma {:induction false} OneOrder(t: nat, tUns: bool, p: nat, uns: bool, a: int)
    requires t >= 1 && Fits(p, uns, a) && p <= t && (uns && p == t ==> tUns)
    ensures WrapTo(t, tUns, a) == if tUns && a < 0 then a + Pow2(t) else a
  {
    if uns {
      Pow2Mono(p, t);
      if p < t {
        Pow2Mono(p, t - 1);
      }
      WrapOfFitting(t, tUns, a);
    } else {
      Pow2Mono(p - 1, t - 1);
      if tUns {
        BitsOfFitting(t, false, a);
      } else {
        WrapOfFitting(t, false, a);
      }
    }
  }

  lemma {:induction false} Halves(p: nat, q: nat, uns: bool, a: int)
    requires Fits(p, uns, a) && p <= q
    ensures !uns ==> -Pow2(q) < 2 * a < Pow2(q) || 2 * a == -Pow2(q)
    ensures uns ==> a >= 0
  {
    if !uns {
      Pow2Mono(p - 1, q - 1);
    }
  }

  /** Values extended alike compare in the wider of their types as in the nominal one. */
  lemma {:induction false} AlikeOrder(p: nat, q: nat, m: nat, n: nat, uns: bool, nUns: bool, a: int, b: int)
    requires 1 <= p <= m && 1 <= q <= m && m < n && Fits(p, uns, a) && Fits(q, uns, b)
    ensures forall code: CompareOp ::
      Holds(code, WrapTo(m, uns || nUns, a), WrapTo(m, uns || nUns, b)) == Holds(code, WrapTo(n, nUns, a), WrapTo(n, nUns, b))
  {
    OneOrder(m, uns || nUns, p, uns, a);
    OneOrder(m, uns || nUns, q, uns, b);
    OneOrder(n, nUns, p, uns, a);
    OneOrder(n, nUns, q, uns, b);
    Halves(p, m, uns, a);
    Halves(q, m, uns, b);
    Pow2Mono(m, n);
  }

  /** Giving an operand the sign it extends by, and then converting it to type0. */
  ghost predicate Reextends(t: Target, env: Env, a: Operand, type0: IntType)
    requires TargetOk(t)
  {
    var via := SignedOrUnsigned(t, a.uns, a.prim.ty);
    Converts(t, env, via, a.prim) && Converts(t, env, type0, Convert(t, via, a.prim))
  }

  /** An operand converted first to its own width with the sign it extends by, then to type0. */
  lemma {:induction false} OperandConverts(t: Target, env: Env, a: Operand, type0: IntType, s: int)
    requires TargetOk(t) && Reextends(t, env, a, type0) && a.prim.ty.prec == a.prim.ty.modeBits
    ensures var via := SignedOrUnsigned(t, a.uns, a.prim.ty);
      Eval(Convert(t, type0, Convert(t, via, a.prim)), env, s) == Outcome(Wrap(type0, Apparent(a, env, s)), Eval(a.prim, env, s).st)
  {
    var via := SignedOrUnsigned(t, a.uns, a.prim.ty);
    ConvertMeans(t, env, via, a.prim);
    var inner := Convert(t, via, a.prim);
    ConvertMeans(t, env, type0, inner);
    hide Convert, Wf, FrontEnd, WrapTo, Folds;
    assert Eval(inner, env, s) == Outcome(Wrap(via, Eval(a.prim, env, s).val), Eval(a.prim, env, s).st);
  }

  lemma {:induction false} BothNarrowMeans(t: Target, env: Env, common: IntType, a: Operand, b: Operand, restype: IntType, code: CompareOp, s: int)
    requires TargetOk(t) && WfType(common) && common.prec == common.modeBits && WfType(restype) && Wf(a.prim, env) && Wf(b.prim, env)
    requires var type0 := NarrowIn(t, common, a, restype); Reextends(t, env, a, type0) && Reextends(t, env, b, type0)
    requires a.prim.ty.prec == a.prim.ty.modeBits && b.prim.ty.prec == b.prim.ty.modeBits && a.uns == b.uns && a.prim.ty.prec <= common.prec < restype.prec && b.prim.ty.prec <= common.prec
    ensures var s1 := Eval(a.prim, env, s).st;
      AnswerOf(BothNarrow(t, common, a, b, restype, code), env, s) ==
      Answer(Holds(code, Wrap(restype, Apparent(a, env, s)), Wrap(restype, Apparent(b, env, s1))), Eval(b.prim, env, s1).st)
  {
    var type0 := NarrowIn(t, common, a, restype);
    var s1 := Eval(a.prim, env, s).st;
    OperandConverts(t, env, a, type0, s);
    OperandConverts(t, env, b, type0, s1);
    WrapFits(a.prim.ty.prec, a.uns, Eval(a.prim, env, s).val);
    WrapFits(b.prim.ty.prec, b.uns, Eval(b.prim, env, s1).val);
    AlikeOrder(a.prim.ty.prec, b.prim.ty.prec, common.prec, restype.prec, a.uns, restype.uns, Apparent(a, env, s), Apparent(b, env, s1));
    hide Convert, Wf, FrontEnd, WrapTo, Reextends;
  }

  // ----- In the nominal type -----

  lemma {:induction false} ZeropIsZero(e: Tree, env: Env, s: int)
    requires IntegerZerop(e) && Wf(e, env)
    ensures Eval(e, env, s) == Outcome(0, s)
  {
    if e.Nop? {
      ZeropIsZero(e.arg, env, s);
      WrapOfFitting(e.ty.prec, e.ty.uns, 0);
    }
  }

  lemma {:induction false} NominalMeans(t: Target, env: Env, op0: Tree, op1: Tree, restype: IntType, code: CompareOp, s: int)
    requires TargetOk(t) && Converts(t, env, restype, op0) && Converts(t, env, restype, op1)
    ensures AnswerOf(Nominal(t, op0, op1, restype, code), env, s) == Asked(code, restype, op0, op1, env, s)
  {
    if IntegerZerop(op1) && restype.uns && (code.Ge? || code.Lt?) {
      assert Nominal(t, op0, op1, restype, code) == Decided(KeepEffects(op0, BooleanNode(t, code.Ge?)));
      hide *;
      DecidedMeans(t, op0, code.Ge?, env, s);
      NeverBelowZero(restype, op0, op1, code, env, s);
    } else {
      assert Nominal(t, op0, op1, restype, code) == Comparison(code, Convert(t, restype, op0), Convert(t, restype, op1));
      hide *;
      ConvertedEval(t, env, restype, op0, s);
      ConvertedEval(t, env, restype, op1, Eval(op0, env, s).st);
      ConvertedAsked(code, restype, op0, op1, Convert(t, restype, op0), Convert(t, restype, op1), env, s);
    }
  }

  lemma {:induction false} ConvertedAsked(code: CompareOp, restype: IntType, op0: Tree, op1: Tree, l: Tree, r: Tree, env: Env, s: int)
    requires Eval(l, env, s) == Outcome(Wrap(restype, Eval(op0, env, s).val), Eval(op0, env, s).st)
    requires var u := Eval(op0, env, s).st; Eval(r, env, u) == Outcome(Wrap(restype, Eval(op1, env, u).val), Eval(op1, env, u).st)
    ensures AnswerOf(Comparison(code, l, r), env, s) == Asked(code, restype, op0, op1, env, s)
  {
    hide Eval, Wrap;
  }

  /** No unsigned number is below zero. */
  lemma {:induction false} NeverBelowZero(restype: IntType, op0: Tree, op1: Tree, code: CompareOp, env: Env, s: int)
    requires WfType(restype) && restype.uns && (code.Ge? || code.Lt?) && IntegerZerop(op1) && Wf(op1, env)
    ensures Asked(code, restype, op0, op1, env, s) == Answer(code.Ge?, Eval(op0, env, s).st)
  {
    ZeropIsZero(op1, env, Eval(op0, env, s).st);
    NotBelowZero(restype, Eval(op0, env, s).val);
    hide Eval, Wrap, Wf, IntegerZerop;
  }

  lemma {:induction false} ConvertedEval(t: Target, env: Env, restype: IntType, op: Tree, s: int)
    requires TargetOk(t) && Converts(t, env, restype, op)
    ensures Eval(Convert(t, restype, op), env, s) == Outcome(Wrap(restype, Eval(op, env, s).val), Eval(op, env, s).st)
  {
    ConvertMeans(t, env, restype, op);
    hide Convert, Wrap, Converts, Wf, FrontEnd;
  }

  lemma {:induction false} NotBelowZero(t: IntType, v: int)
    requires WfType(t) && t.uns
    ensures Wrap(t, v) >= 0 && Wrap(t, 0) == 0
  {
    WrapOfFitting(t.prec, t.uns, 0);
  }

  // ----- The whole -----

  ghost predicate CommonOk(commonType: (IntType, IntType) -> IntType) {
    forall x: IntType, y: IntType {:trigger commonType(x, y)} | WfType(x) && WfType(y) && x.prec == x.modeBits && y.prec == y.modeBits ::
      && WfType(commonType(x, y)) && commonType(x, y).prec == commonType(x, y).modeBits
      && commonType(x, y).prec == if x.prec < y.prec then y.prec else x.prec
  }

  /** What the caller of shorten_compare provides: a nominal type of arithmetic, operands no wider,
      whose stripped types fill their modes, and no conversion left around a constant. */
  ghost predicate Operands(op0: Tree, op1: Tree, restype: IntType, env: Env) {
    && Wf(op0, env) && Wf(op1, env) && WfType(restype) && !Detours(restype) && op0.ty.prec <= restype.prec && op1.ty.prec <= restype.prec
    && (Narrower(op0).0.Cst? ==> op0.Cst?) && (Narrower(op1).0.Cst? ==> op1.Cst?)
    && Ordinary(Look(op0, restype), restype) && Ordinary(Look(op1, restype), restype)
  }

  predicate Ordinary(a: Operand, restype: IntType) {
    a.prim.ty.prec < restype.prec ==> a.prim.ty.prec == a.prim.ty.modeBits
  }

  /** The conversions made for operands in the order they are put in, fold doing its work in each. */
  ghost predicate Conversions(t: Target, env: Env, commonType: (IntType, IntType) -> IntType, a: Operand, b: Operand, restype: IntType)
    requires TargetOk(t)
  {
    if ConstantCase(a, b, restype) then Converts(t, env, ComparedIn(t, a, restype), a.prim)
    else if NarrowCase(a, b, restype) then
      var type0 := NarrowIn(t, commonType(a.prim.ty, b.prim.ty), a, restype);
      Reextends(t, env, a, type0) && Reextends(t, env, b, type0)
    else Converts(t, env, restype, a.op) && Converts(t, env, restype, b.op)
  }

  ghost predicate ShortenConverts(t: Target, env: Env, commonType: (IntType, IntType) -> IntType, op0: Tree, op1: Tree, restype: IntType)
    requires TargetOk(t)
  {
    var a, b := Look(op0, restype), Look(op1, restype);
    if Swaps(a, b) then Conversions(t, env, commonType, b, a, restype) else Conversions(t, env, commonType, a, b, restype)
  }

  /** The operands are compared as if each were the single extension it appears to be. */
  lemma {:induction false} ShortenFromApparent(t: Target, env: Env, commonType: (IntType, IntType) -> IntType, op0: Tree, op1: Tree, restype: IntType,
                            code: CompareOp, s: int)
    requires TargetOk(t) && CommonOk(commonType) && Operands(op0, op1, restype, env)
    requires Conversions(t, env, commonType, Look(op0, restype), Look(op1, restype), restype)
    ensures var a, b := Look(op0, restype), Look(op1, restype);
      var s1 := Eval(op0, env, s).st;
      a.prim.ty.prec >= 1 &&
      AnswerOf(ShortenFrom(t, commonType, a, b, restype, code), env, s) ==
      if ConstantCase(a, b, restype) || NarrowCase(a, b, restype) then
        Answer(Holds(code, Wrap(restype, Apparent(a, env, s)), Wrap(restype, Apparent(b, env, s1))), Eval(op1, env, s1).st)
      else Asked(code, restype, op0, op1, env, s)
  {
    var a, b := Look(op0, restype), Look(op1, restype);
    var s1 := Eval(op0, env, s).st;
    LookApparent(op0, restype, env, s);
    LookApparent(op1, restype, env, s1);
    hide Look, AgainstConstant, BothNarrow, Nominal, Apparent, Eval, Wf, FrontEnd, Wrap, Converts, Reextends;
    if ConstantCase(a, b, restype) {
      AgainstConstantMeans(t, env, a, b, restype, code, s);
      ConstantApparent(op1, restype, env, s1);
    } else if NarrowCase(a, b, restype) {
      BothNarrowMeans(t, env, commonType(a.prim.ty, b.prim.ty), a, b, restype, code, s);
    } else {
      NominalMeans(t, env, op0, op1, restype, code, s);
    }
  }

  lemma {:induction false} ConstantApparent(op: Tree, restype: IntType, env: Env, s: int)
    requires op.Cst? && Wf(op, env) && op.ty.prec <= restype.prec
    ensures Wrap(restype, Apparent(Look(op, restype), env, s)) == Wrap(restype, op.val)
  {
    var a := Look(op, restype);
    if op.ty != restype {
      WrapOfFitting(op.ty.prec, op.ty.uns, op.val);
    } else {
      WrapCong(op.ty.prec, op.ty.prec, a.uns, op.val);
      CongWrap(restype.prec, restype.uns, Apparent(a, env, s), op.val);
    }
  }

  /** A constant operand may be evaluated at any time. */
  lemma {:induction false} ConstantIsPure(e: Tree, env: Env, s: int)
    requires TreeConstant(e)
    ensures Eval(e, env, s) == Outcome(Eval(e, env, 0).val, s)
  {
    match e
    case Cst(_, _) =>
    case Nop(_, a) => ConstantIsPure(a, env, s); ConstantIsPure(a, env, 0);
    case Unary(_, _, a) => ConstantIsPure(a, env, s); ConstantIsPure(a, env, 0);
    case Binary(_, _, l, r) =>
      ConstantIsPure(l, env, s);
      ConstantIsPure(l, env, 0);
      ConstantIsPure(r, env, s);
      ConstantIsPure(r, env, 0);
  }

  /** A shortcut was taken on operands a and b. */
  predicate Shortcut(a: Operand, b: Operand, restype: IntType) {
    ConstantCase(a, b, restype) || NarrowCase(a, b, restype)
  }

  predicate Ordering(code: CompareOp) {
    !code.Eq? && !code.Ne?
  }

  /** Changes of signedness that cannot be told from the comparison: both operands change at the same
      width, or the wider of two zero-extended operands changes. */
  predicate Distorted(a: Operand, b: Operand, restype: IntType) {
    if Mismatched(a, restype) && Mismatched(b, restype) then a.op.ty.prec == b.op.ty.prec
    else a.uns && (if Mismatched(a, restype) then a.prim.ty.prec > b.prim.ty.prec else b.prim.ty.prec > a.prim.ty.prec)
  }

  /** No shortcut, or both operands are the single extensions they appear to be, or the difference
      does not show. */
  predicate FaithfulPair(ordering: bool, a: Operand, b: Operand, restype: IntType) {
    || !Shortcut(a, b, restype)
    || (!Mismatched(a, restype) && !Mismatched(b, restype))
    || (!ConstantCase(a, b, restype) && Distorted(a, b, restype) && (restype.uns || !ordering))
  }

  /** So in the order shorten_compare has put the operands. */
  predicate Faithful(code: CompareOp, op0: Tree, op1: Tree, restype: IntType) {
    var a, b := Look(op0, restype), Look(op1, restype);
    if Swaps(a, b) then FaithfulPair(Ordering(code), b, a, restype) else FaithfulPair(Ordering(code), a, b, restype)
  }

  // The value in the nominal type of an operand that appears to be x.

  function Image(changed: bool, q: nat, n: nat, nUns: bool, uns: bool, x: int): int {
    if !changed then if nUns && x < 0 then x + Pow2(n) else x
    else if !uns then if x < 0 then x + Pow2(q) else x
    else if 2 * x < Pow2(q) then x
    else if nUns then x - Pow2(q) + Pow2(n) else x - Pow2(q)
  }

  /** p bits, zero- or sign-extended, perhaps changing sign at q bits on the way to n. */
  predicate Path(changed: bool, p: nat, q: nat, n: nat, uns: bool) {
    1 <= p < n && (changed ==> p <= q < n && (uns ==> p == q))
  }

  lemma {:induction false} ImageIs(changed: bool, p: nat, q: nat, n: nat, nUns: bool, uns: bool, x: int)
    requires Path(changed, p, q, n, uns) && Fits(p, uns, x)
    ensures WrapTo(n, nUns, if changed then WrapTo(q, !uns, x) else x) == Image(changed, q, n, nUns, uns, x)
  {
    if changed {
      ChangedValue(p, q, uns, x);
      WrapFits(q, !uns, x);
      hide WrapTo;
      OneOrder(n, nUns, q, !uns, WrapTo(q, !uns, x));
    } else {
      OneOrder(n, nUns, p, uns, x);
    }
  }

  lemma {:induction false} ChangedValue(p: nat, q: nat, uns: bool, x: int)
    requires 1 <= p <= q && (uns ==> p == q) && Fits(p, uns, x)
    ensures WrapTo(q, !uns, x) == if uns then if 2 * x < Pow2(q) then x else x - Pow2(q) else if x < 0 then x + Pow2(q) else x
  {
    Pow2Mono(p - 1, q - 1);
    BitsOfFitting(q, uns, x);
  }

  /** The order of the operands is that of what they appear to be. */
  lemma {:induction false} ImagesAlike(ca: bool, pa: nat, qa: nat, cb: bool, pb: nat, qb: nat, n: nat, nUns: bool, uns: bool, code: CompareOp, x: int, y: int)
    requires Path(ca, pa, qa, n, uns) && Path(cb, pb, qb, n, uns) && Fits(pa, uns, x) && Fits(pb, uns, y)
    requires nUns || !Ordering(code)
    requires if ca && cb then qa == qb else uns && (ca || cb) && if ca then pa > pb else pb > pa
    ensures Holds(code, Image(ca, qa, n, nUns, uns, x), Image(cb, qb, n, nUns, uns, y))
         == Holds(code, Image(false, qa, n, nUns, uns, x), Image(false, qb, n, nUns, uns, y))
  {
    PathBounds(ca, pa, qa, n, uns, x);
    PathBounds(cb, pb, qb, n, uns, y);
    if ca && cb {
      SameChange(qa, n, nUns, uns, x, y);
    } else if ca {
      WiderChange(pa, pb, n, nUns, x, y);
    } else {
      WiderChange(pb, pa, n, nUns, y, x);
    }
    hide Pow2;
  }

  lemma {:induction false} PathBounds(changed: bool, p: nat, q: nat, n: nat, uns: bool, x: int)
    requires Path(changed, p, q, n, uns) && Fits(p, uns, x)
    ensures 2 * Pow2(p) <= Pow2(n) && (changed ==> Pow2(p) <= Pow2(q) && 2 * Pow2(q) <= Pow2(n))
    ensures if uns then 0 <= x < Pow2(p) else -Pow2(p) <= 2 * x < Pow2(p)
  {
    Halves(p, p, uns, x);
    Pow2Mono(p, n);
    if changed {
      Pow2Mono(p, q);
      Pow2Mono(q, n);
    }
  }

  lemma {:induction false} SameChange(q: nat, n: nat, nUns: bool, uns: bool, x: int, y: int)
    requires 2 * Pow2(q) <= Pow2(n)
    requires if uns then 0 <= x < Pow2(q) && 0 <= y < Pow2(q) else -Pow2(q) <= 2 * x < Pow2(q) && -Pow2(q) <= 2 * y < Pow2(q)
    ensures var x', y', x0, y0 := Image(true, q, n, nUns, uns, x), Image(true, q, n, nUns, uns, y), Image(false, q, n, nUns, uns, x), Image(false, q, n, nUns, uns, y);
      (x' == y' <==> x0 == y0) && (nUns ==> (x' < y' <==> x0 < y0))
  {
    hide Pow2;
  }

  lemma {:induction false} WiderChange(p: nat, q: nat, n: nat, nUns: bool, x: int, y: int)
    requires q < p && 2 * Pow2(p) <= Pow2(n) && 0 <= x < Pow2(p) && 0 <= y < Pow2(q)
    ensures var x' := Image(true, p, n, nUns, true, x); (x' == y <==> x == y) && (nUns ==> (x' < y <==> x < y) && (y < x' <==> y < x))
  {
    Pow2Mono(q, p);
    hide Pow2;
  }

  /** Otherwise values of the operands show the difference. */
  lemma {:induction false} ImagesDiffer(ca: bool, pa: nat, qa: nat, cb: bool, pb: nat, qb: nat, n: nat, nUns: bool, uns: bool, ordering: bool)
    returns (code: CompareOp, x: int, y: int)
    requires Path(ca, pa, qa, n, uns) && Path(cb, pb, qb, n, uns) && (ca || cb)
    requires !((nUns || !ordering) && if ca && cb then qa == qb else uns && if ca then pa > pb else pb > pa)
    ensures Fits(pa, uns, x) && Fits(pb, uns, y) && Ordering(code) == ordering
    ensures Holds(code, Image(ca, qa, n, nUns, uns, x), Image(cb, qb, n, nUns, uns, y))
         != Holds(code, Image(false, qa, n, nUns, uns, x), Image(false, qb, n, nUns, uns, y))
  {
    if if ca && cb then qa == qb else uns && if ca then pa > pb else pb > pa {
      x := if !uns then -1 else if ca then Pow2(pa) - 1 else 0;
      y := if uns && !ca then Pow2(pb) - 1 else 0;
      code := Lt;
      PathBounds(ca, pa, qa, n, uns, x);
      PathBounds(cb, pb, qb, n, uns, y);
      hide Pow2;
    } else {
      x := EqualDiffers(ca, pa, qa, cb, pb, qb, n, nUns, uns);
      y := x;
      hide Fits, Pow2;
      code := if !ordering then Eq else if Image(ca, qa, n, nUns, uns, x) < Image(cb, qb, n, nUns, uns, y) then Ge else Le;
    }
  }

  lemma {:induction false} EqualDiffers(ca: bool, pa: nat, qa: nat, cb: bool, pb: nat, qb: nat, n: nat, nUns: bool, uns: bool) returns (x: int)
    requires Path(ca, pa, qa, n, uns) && Path(cb, pb, qb, n, uns) && (ca || cb)
    requires !if ca && cb then qa == qb else uns && if ca then pa > pb else pb > pa
    ensures Fits(pa, uns, x) && Fits(pb, uns, x) && Image(ca, qa, n, nUns, uns, x) != Image(cb, qb, n, nUns, uns, x)
  {
    var m := if pa < pb then pa else pb;
    x := if uns then Pow2(m) - 1 else -1;
    Pow2Mono(m, pa);
    Pow2Mono(m, pb);
    PathBounds(ca, pa, qa, n, uns, x);
    PathBounds(cb, pb, qb, n, uns, x);
    if ca && cb {
      Pow2Mono(if qa < qb then qa else qb, if qa < qb then qb else qa);
    }
    hide Pow2;
  }

  /** An operand of a shortcut, as it appears and as it is. */
  lemma {:induction false} OperandImage(a: Operand, restype: IntType, env: Env, s: int, v: int)
    requires a.prim.ty.prec < restype.prec && a.prim.ty.prec <= a.op.ty.prec && 1 <= a.prim.ty.prec
    requires Wrap(restype, v) == Wrap(restype, if Mismatched(a, restype) then Wrap(a.op.ty, Apparent(a, env, s)) else Apparent(a, env, s))
    ensures Path(Mismatched(a, restype), a.prim.ty.prec, a.op.ty.prec, restype.prec, a.uns)
    ensures Fits(a.prim.ty.prec, a.uns, Apparent(a, env, s))
    ensures Wrap(restype, v) == Image(Mismatched(a, restype), a.op.ty.prec, restype.prec, restype.uns, a.uns, Apparent(a, env, s))
    ensures Wrap(restype, Apparent(a, env, s)) == Image(false, a.op.ty.prec, restype.prec, restype.uns, a.uns, Apparent(a, env, s))
  {
    var p, q, n, x := a.prim.ty.prec, a.op.ty.prec, restype.prec, Apparent(a, env, s);
    WrapFits(p, a.uns, Eval(a.prim, env, s).val);
    hide Eval;
    ImageIs(Mismatched(a, restype), p, q, n, restype.uns, a.uns, x);
    ImageIs(false, p, q, n, restype.uns, a.uns, x);
    hide Image, WrapTo, Fits, Path;
  }

  lemma {:induction false} ShortenFromMeans(t: Target, env: Env, commonType: (IntType, IntType) -> IntType, op0: Tree, op1: Tree, restype: IntType,
                         code: CompareOp, s: int)
    requires TargetOk(t) && CommonOk(commonType) && Operands(op0, op1, restype, env)
    requires Conversions(t, env, commonType, Look(op0, restype), Look(op1, restype), restype)
    requires FaithfulPair(Ordering(code), Look(op0, restype), Look(op1, restype), restype)
    ensures Look(op0, restype).prim.ty.prec >= 1
    ensures AnswerOf(ShortenFrom(t, commonType, Look(op0, restype), Look(op1, restype), restype, code), env, s)
            == Asked(code, restype, op0, op1, env, s)
  {
    var a, b := Look(op0, restype), Look(op1, restype);
    var s1 := Eval(op0, env, s).st;
    ShortenFromApparent(t, env, commonType, op0, op1, restype, code, s);
    LookApparent(op0, restype, env, s);
    LookApparent(op1, restype, env, s1);
    hide Look, ShortenFrom, Eval, AnswerOf, Wf, FrontEnd, Apparent, Wrap;
    if NarrowCase(a, b, restype) && (Mismatched(a, restype) || Mismatched(b, restype)) && !ConstantCase(a, b, restype) {
      OperandImage(a, restype, env, s, Eval(op0, env, s).val);
      OperandImage(b, restype, env, s1, Eval(op1, env, s1).val);
      ImagesAlike(Mismatched(a, restype), a.prim.ty.prec, a.op.ty.prec, Mismatched(b, restype), b.prim.ty.prec, b.op.ty.prec,
                  restype.prec, restype.uns, a.uns, code, Apparent(a, env, s), Apparent(b, env, s1));
    }
  }

  lemma {:induction false} OperandsSwap(op0: Tree, op1: Tree, restype: IntType, env: Env)
    requires Operands(op0, op1, restype, env)
    ensures Operands(op1, op0, restype, env)
  {
    hide Wf, FrontEnd, Look, Narrower;
  }

  /** Comparing the operands the other way round. */
  lemma {:induction false} AskedSwapped(code: CompareOp, restype: IntType, op0: Tree, op1: Tree, env: Env, s: int)
    requires TreeConstant(op0)
    ensures Asked(Swapped(code), restype, op1, op0, env, s) == Asked(code, restype, op0, op1, env, s)
  {
    ConstantIsPure(op0, env, s);
    ConstantIsPure(op0, env, Eval(op1, env, s).st);
    hide Wrap, Eval;
  }

  /** The shortened comparison, or the constant found, has the truth value of the comparison asked
      for, and evaluates both operands' side effects. */
  lemma {:induction false} ShortenMeans(t: Target, env: Env, commonType: (IntType, IntType) -> IntType, op0: Tree, op1: Tree, restype: IntType,
                     code: CompareOp, s: int)
    requires TargetOk(t) && CommonOk(commonType) && Operands(op0, op1, restype, env) && ShortenConverts(t, env, commonType, op0, op1, restype)
    requires Faithful(code, op0, op1, restype)
    ensures Look(op0, restype).prim.ty.prec >= 1 && Look(op1, restype).prim.ty.prec >= 1
    ensures AnswerOf(Shorten(t, commonType, op0, op1, restype, code), env, s) == Asked(code, restype, op0, op1, env, s)
  {
    var a, b := Look(op0, restype), Look(op1, restype);
    LookApparent(op0, restype, env, s);
    LookApparent(op1, restype, env, s);
    OperandsSwap(op0, op1, restype, env);
    hide TargetOk, CommonOk, Operands, Look, FaithfulPair, ShortenFrom, AnswerOf, Asked, Conversions, Narrower;
    if Swaps(a, b) {
      ShortenFromMeans(t, env, commonType, op1, op0, restype, Swapped(code), s);
      AskedSwapped(code, restype, op0, op1, env, s);
    } else {
      ShortenFromMeans(t, env, commonType, op0, op1, restype, code, s);
    }
  }

  // ----- Exactly when -----

  ghost predicate RightAt(t: Target, commonType: (IntType, IntType) -> IntType, op0: Tree, op1: Tree, restype: IntType, code: CompareOp, env: Env, s: int) {
    TargetOk(t) && Look(op0, restype).prim.ty.prec >= 1 && Look(op1, restype).prim.ty.prec >= 1 &&
    AnswerOf(Shorten(t, commonType, op0, op1, restype, code), env, s) == Asked(code, restype, op0, op1, env, s)
  }

  /** Two variables stripped of all their conversions are compared rightly, by equality or by order and
      whatever their values, exactly when they are single extensions or the difference does not show. */
  lemma {:induction false} ShortenPairIff(t: Target, commonType: (IntType, IntType) -> IntType, op0: Tree, op1: Tree, restype: IntType, ordering: bool)
    requires TargetOk(t) && CommonOk(commonType)
    requires forall env: Env :: Operands(op0, op1, restype, env) && ShortenConverts(t, env, commonType, op0, op1, restype)
    requires var x, y := Look(op0, restype).prim, Look(op1, restype).prim; x.Leaf? && y.Leaf? && x.id != y.id
    ensures (forall code: CompareOp, env: Env, s: int | Ordering(code) == ordering :: RightAt(t, commonType, op0, op1, restype, code, env, s))
            <==> FaithfulPair(ordering, Look(op0, restype), Look(op1, restype), restype)
  {
    hide ShortenConverts, Operands, TargetOk, CommonOk, Shorten, Narrower, AnswerOf, Asked;
    if FaithfulPair(ordering, Look(op0, restype), Look(op1, restype), restype) {
      forall code: CompareOp, env: Env, s: int | Ordering(code) == ordering ensures RightAt(t, commonType, op0, op1, restype, code, env, s) {
        assert Operands(op0, op1, restype, env) && ShortenConverts(t, env, commonType, op0, op1, restype);
        ShortenMeans(t, env, commonType, op0, op1, restype, code, s);
      }
    } else {
      var code, env := PairWrong(t, commonType, op0, op1, restype, ordering);
    }
  }

  function PairEnv(id: nat, x: int, y: int): Env {
    Env((i: nat, s: int) => if i == id then x else y, (i: nat, s: int) => s, (code: nat, v: int, w: int) => 0)
  }

  lemma {:induction false} LeafApparent(a: Operand, env: Env, x: int, s: int)
    requires a.prim.Leaf? && env.read(a.prim.id, s) == x && Fits(a.prim.ty.prec, a.uns, x)
    ensures Apparent(a, env, s) == x
  {
    WrapWrap(a.prim.ty.prec, a.uns, a.prim.ty.prec, a.prim.ty.uns, x);
    WrapOfFitting(a.prim.ty.prec, a.uns, x);
  }

  lemma {:induction false} PairWrong(t: Target, commonType: (IntType, IntType) -> IntType, op0: Tree, op1: Tree, restype: IntType, ordering: bool)
    returns (code: CompareOp, env: Env)
    requires TargetOk(t) && CommonOk(commonType)
    requires forall env: Env :: Operands(op0, op1, restype, env) && ShortenConverts(t, env, commonType, op0, op1, restype)
    requires var x, y := Look(op0, restype).prim, Look(op1, restype).prim; x.Leaf? && y.Leaf? && x.id != y.id
    requires !FaithfulPair(ordering, Look(op0, restype), Look(op1, restype), restype)
    ensures Ordering(code) == ordering && !RightAt(t, commonType, op0, op1, restype, code, env, 0)
  {
    var a, b := Look(op0, restype), Look(op1, restype);
    env := PairEnv(0, 0, 0);
    assert Operands(op0, op1, restype, env);
    LookApparent(op0, restype, env, 0);
    LookApparent(op1, restype, env, 0);
    hide Look, Wrap, Apparent, Operands, ShortenConverts;
    OperandImage(a, restype, env, 0, Eval(op0, env, 0).val);
    OperandImage(b, restype, env, 0, Eval(op1, env, 0).val);
    var x, y;
    code, x, y := ImagesDiffer(Mismatched(a, restype), a.prim.ty.prec, a.op.ty.prec, Mismatched(b, restype), b.prim.ty.prec, b.op.ty.prec,
                               restype.prec, restype.uns, a.uns, ordering);
    env := PairEnv(a.prim.id, x, y);
    assert Operands(op0, op1, restype, env) && ShortenConverts(t, env, commonType, op0, op1, restype);
    var s1 := Eval(op0, env, 0).st;
    LeafApparent(a, env, x, 0);
    LeafApparent(b, env, y, s1);
    hide Image, Path, Fits;
    ShownWrong(t, env, commonType, op0, op1, restype, code);
  }

  /** What the operands appear to be compares differently from what they are. */
  lemma {:induction false} ShownWrong(t: Target, env: Env, commonType: (IntType, IntType) -> IntType, op0: Tree, op1: Tree, restype: IntType, code: CompareOp)
    requires TargetOk(t) && CommonOk(commonType) && Operands(op0, op1, restype, env) && ShortenConverts(t, env, commonType, op0, op1, restype)
    requires var a, b := Look(op0, restype), Look(op1, restype);
      var s1 := Eval(op0, env, 0).st;
      && a.prim.Leaf? && b.prim.Leaf? && NarrowCase(a, b, restype)
      && Holds(code, Image(Mismatched(a, restype), a.op.ty.prec, restype.prec, restype.uns, a.uns, Apparent(a, env, 0)),
                     Image(Mismatched(b, restype), b.op.ty.prec, restype.prec, restype.uns, b.uns, Apparent(b, env, s1)))
      != Holds(code, Image(false, a.op.ty.prec, restype.prec, restype.uns, a.uns, Apparent(a, env, 0)),
                     Image(false, b.op.ty.prec, restype.prec, restype.uns, b.uns, Apparent(b, env, s1)))
    ensures !RightAt(t, commonType, op0, op1, restype, code, env, 0)
  {
    var a, b := Look(op0, restype), Look(op1, restype);
    var s1 := Eval(op0, env, 0).st;
    LookApparent(op0, restype, env, 0);
    LookApparent(op1, restype, env, s1);
    ShortenFromApparent(t, env, commonType, op0, op1, restype, code, 0);
    hide Look, ShortenFrom, Eval, AnswerOf, Conversions, Apparent, Wrap, Image, Operands;
    OperandImage(a, restype, env, 0, Eval(op0, env, 0).val);
    OperandImage(b, restype, env, s1, Eval(op1, env, s1).val);
  }

  // ----- Exactly when, against a constant -----

  /** A constant that shows a mismatch, for each operator. */
  function WitnessConstant(code: CompareOp, q: nat, restype: IntType): int {
    var k := Pow2(q) - 1;
    if !restype.uns then if code.Le? || code.Gt? then 0 else k
    else if code.Ge? || code.Lt? then Pow2(restype.prec) - 1 else k
  }

  lemma {:induction false} WitnessShows(a: Operand, restype: IntType, code: CompareOp) returns (c: int, x: int)
    requires WfType(restype) && 1 <= a.prim.ty.prec <= a.op.ty.prec && Mismatched(a, restype)
    ensures InRange(restype, c) && Wrap(restype, c) == c && Fits(a.prim.ty.prec, a.uns, x)
    ensures Holds(code, Image(true, a.op.ty.prec, restype.prec, restype.uns, a.uns, x), c)
         != Holds(code, Image(false, a.op.ty.prec, restype.prec, restype.uns, a.uns, x), c)
  {
    var p, q, n := a.prim.ty.prec, a.op.ty.prec, restype.prec;
    x := if a.uns then Pow2(q) - 1 else -1;
    c := WitnessConstant(code, q, restype);
    Pow2Mono(q, n - 1);
    WrapOfFitting(n, restype.uns, c);
    hide Pow2, WrapTo;
  }

  /** A variable stripped of all its conversions is compared rightly with every constant of the nominal
      type, whatever its value, exactly when the conversions are not mistaken for a single extension. */
  lemma {:induction false} ShortenRightIff(t: Target, commonType: (IntType, IntType) -> IntType, op: Tree, restype: IntType, code: CompareOp)
    requires TargetOk(t) && CommonOk(commonType) && WfType(restype) && Look(op, restype).prim.Leaf?
    requires forall c: int, env: Env | InRange(restype, c) ::
      Operands(op, Cst(restype, c), restype, env) && ShortenConverts(t, env, commonType, op, Cst(restype, c), restype)
    ensures (forall c: int, env: Env, s: int | InRange(restype, c) :: RightAt(t, commonType, op, Cst(restype, c), restype, code, env, s))
            <==> !Mismatched(Look(op, restype), restype)
  {
    hide ShortenConverts, Operands, TargetOk, CommonOk, Shorten, Narrower, AnswerOf, Asked;
    if Mismatched(Look(op, restype), restype) {
      var c, x := MismatchWrong(t, commonType, op, restype, code);
    } else {
      forall c: int, env: Env, s: int | InRange(restype, c) ensures RightAt(t, commonType, op, Cst(restype, c), restype, code, env, s) {
        assert Operands(op, Cst(restype, c), restype, env) && ShortenConverts(t, env, commonType, op, Cst(restype, c), restype);
        ConstantLook(restype, c);
        ShortenMeans(t, env, commonType, op, Cst(restype, c), restype, code, s);
      }
    }
  }

  lemma {:induction false} ConstantLook(restype: IntType, c: int)
    ensures var k := Cst(restype, c); Look(k, restype) == Operand(k, k, false) && !Mismatched(Look(k, restype), restype)
  {
  }

  function ConstantEnv(x: int): Env {
    Env((id: nat, s: int) => x, (id: nat, s: int) => s, (code: nat, v: int, w: int) => 0)
  }

  /** A value and a constant compared wrongly after all conversions mistaken for an extension. */
  lemma {:induction false} MismatchWrong(t: Target, commonType: (IntType, IntType) -> IntType, op: Tree, restype: IntType, code: CompareOp)
    returns (c: int, x: int)
    requires TargetOk(t) && CommonOk(commonType) && WfType(restype) && Look(op, restype).prim.Leaf? && Mismatched(Look(op, restype), restype)
    requires forall c: int, env: Env | InRange(restype, c) ::
      Operands(op, Cst(restype, c), restype, env) && ShortenConverts(t, env, commonType, op, Cst(restype, c), restype)
    ensures InRange(restype, c) && !RightAt(t, commonType, op, Cst(restype, c), restype, code, ConstantEnv(x), 0)
  {
    var a := Look(op, restype);
    WrapFits(restype.prec, restype.uns, 0);
    assert Operands(op, Cst(restype, Wrap(restype, 0)), restype, ConstantEnv(0));
    LookApparent(op, restype, ConstantEnv(0), 0);
    assert 1 <= a.prim.ty.prec;
    hide Look, Wrap, Operands, ShortenConverts;
    c, x := WitnessShows(a, restype, code);
    var env := ConstantEnv(x);
    assert Operands(op, Cst(restype, c), restype, env) && ShortenConverts(t, env, commonType, op, Cst(restype, c), restype);
    LeafApparent(a, env, x, 0);
    hide Image, Fits;
    WitnessWrong(t, env, commonType, op, restype, code, c);
  }

  lemma {:induction false} WitnessWrong(t: Target, env: Env, commonType: (IntType, IntType) -> IntType, op: Tree, restype: IntType, code: CompareOp, c: int)
    requires TargetOk(t) && CommonOk(commonType) && Operands(op, Cst(restype, c), restype, env)
    requires ShortenConverts(t, env, commonType, op, Cst(restype, c), restype) && Wrap(restype, c) == c
    requires var a := Look(op, restype);
      && a.prim.Leaf? && Mismatched(a, restype)
      && Holds(code, Image(true, a.op.ty.prec, restype.prec, restype.uns, a.uns, Apparent(a, env, 0)), c)
      != Holds(code, Image(false, a.op.ty.prec, restype.prec, restype.uns, a.uns, Apparent(a, env, 0)), c)
    ensures !RightAt(t, commonType, op, Cst(restype, c), restype, code, env, 0)
  {
    var a := Look(op, restype);
    LookApparent(op, restype, env, 0);
    ConstantLook(restype, c);
    ConstantApparent(Cst(restype, c), restype, env, Eval(op, env, 0).st);
    ShortenFromApparent(t, env, commonType, op, Cst(restype, c), restype, code, 0);
    hide Look, ShortenFrom, AnswerOf, Conversions, Apparent, Wrap, Image, Operands;
    OperandImage(a, restype, env, 0, Eval(op, env, 0).val);
  }
}
