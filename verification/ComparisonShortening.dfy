/** shorten_compare (c-common.c): comparing two integers in a narrower type, or deciding the
    comparison outright. */
module ComparisonShortening {
  import opened IntegerTypes
  import opened Trees
  import opened IntegerConversion

  // ----- get_narrower -----

  /** The loop of get_narrower, entered with every conversion outside `op` stripped. */
  function NarrowerFrom(op: Tree, uns: bool, first: bool): (Tree, bool)
    decreases op
  {
    if !op.Nop? || op.ty.prec < op.arg.ty.prec then (op, uns)
    else if op.ty.prec > op.arg.ty.prec && !first && uns != op.arg.ty.uns then (op, uns)
    else NarrowerFrom(op.arg, if first then op.arg.ty.uns else uns, false)
  }

  /** get_narrower: the operand inside the conversions, and whether they zero-extend it. */
  function Narrower(op: Tree): (Tree, bool) {
    NarrowerFrom(op, false, true)
  }

  method GetNarrower(expr: Tree) returns (win: Tree, uns: bool)
    ensures (win, uns) == Narrower(expr)
  {
    var op := expr;
    var first := true;
    uns := false;
    win := op;
    while op.Nop?
      invariant win == op && NarrowerFrom(op, uns, first) == Narrower(expr)
      decreases op
    {
      var bitsChange := op.ty.prec - op.arg.ty.prec;
      if bitsChange < 0 {
        break;
      }
      op := op.arg;
      if bitsChange > 0 {
        if first {
          uns := op.ty.uns;
        } else if uns != op.ty.uns {
          break;
        }
      } else if first {
        uns := op.ty.uns;
      }
      first := false;
      win := op;
    }
  }

  // ----- shorten_compare -----

  /** What it leaves for its caller: a comparison of op0 and op1 (in a common type), or a constant. */
  datatype Shortened = Comparison(code: CompareOp, op0: Tree, op1: Tree) | Decided(value: Tree)

  function Swapped(code: CompareOp): CompareOp {
    match code
    case Lt => Gt
    case Gt => Lt
    case Le => Ge
    case Ge => Le
    case Eq => Eq
    case Ne => Ne
  }

  predicate IntegerZerop(e: Tree) {
    match e
    case Cst(_, v) => v == 0
    case Nop(t, a) => t.modeBits == a.ty.modeBits && IntegerZerop(a)
    case _ => false
  }

  /** TREE_CONSTANT. */
  predicate TreeConstant(e: Tree) {
    match e
    case Cst(_, _) => true
    case Nop(_, a) => TreeConstant(a)
    case Unary(_, _, a) => TreeConstant(a)
    case Binary(_, _, l, r) => TreeConstant(l) && TreeConstant(r)
    case _ => false
  }

  /** An operand as shorten_compare sees it: the operand, what is inside its conversions, and
      whether that is taken to be zero-extended. */
  datatype Operand = Operand(op: Tree, prim: Tree, uns: bool)

  function Look(op: Tree, restype: IntType): Operand {
    var (prim, uns) := Narrower(op);
    Operand(op, prim, if prim == op && op.ty != restype then op.ty.uns else uns)
  }

  function SignedOrUnsigned(t: Target, uns: bool, x: IntType): IntType {
    t.withSign(uns, x)
  }

  /** What range analysis knows: the answer if fixed, by comparing the constant c with the least and
      greatest value of the variable operand. */
  datatype Verdict = Unknown | Always(b: bool)

  function Decide(code: CompareOp, c: int, least: int, greatest: int): Verdict {
    var minGt, maxGt, minLt, maxLt := c < least, c < greatest, least < c, greatest < c;
    match code
    case Ne => if maxLt || minGt then Always(true) else Unknown
    case Eq => if maxLt || minGt then Always(false) else Unknown
    case Lt => if !minLt then Always(false) else if maxLt then Always(true) else Unknown
    case Gt => if !maxGt then Always(false) else if minGt then Always(true) else Unknown
    case Le => if minGt then Always(false) else if !maxGt then Always(true) else Unknown
    case Ge => if maxLt then Always(false) else if !minLt then Always(true) else Unknown
  }

  function BooleanNode(t: Target, b: bool): Tree {
    Cst(t.intType, if b then 1 else 0)
  }

  function KeepEffects(prim: Tree, value: Tree): Tree {
    if SideEffects(prim) then Compound(value.ty, prim, value) else value
  }

  /** A constant converted to a type. */
  function ConvertConstant(x: IntType, c: Tree): Tree
    requires c.Cst?
  {
    if c.ty == x then c else Cst(x, Wrap(x, c.val))
  }

  /** The type a variable operand is compared with a constant in. */
  function ComparedIn(t: Target, a: Operand, restype: IntType): IntType {
    var type0 := SignedOrUnsigned(t, a.uns, a.prim.ty);
    if restype.uns && !a.uns then t.unsignedOf(type0) else type0
  }

  /** The variable operand narrower than the nominal type, the other a constant. */
  function AgainstConstant(t: Target, a: Operand, b: Operand, restype: IntType, code: CompareOp): Shortened
    requires TargetOk(t) && b.prim.Cst? && a.prim.ty.prec >= 1
  {
    var type0 := SignedOrUnsigned(t, a.uns, a.prim.ty);
    var signReversed := restype.uns && !a.uns;
    var nominal := if signReversed then t.signedOf(restype) else restype;
    var c := ConvertConstant(nominal, b.prim);
    var least, greatest := Wrap(nominal, MinValue(type0)), Wrap(nominal, MaxValue(type0));
    var verdict := Decide(code, c.val, least, greatest);
    var inequality := !code.Eq? && !code.Ne?;
    var c' := if signReversed && verdict.Always? && inequality
              then Cst(type0, if code.Lt? || code.Ge? then MinValue(type0) else MaxValue(type0)) else c;
    var type1 := ComparedIn(t, a, restype);
    if verdict.Always? && !(signReversed && inequality) then Decided(KeepEffects(a.prim, BooleanNode(t, verdict.b)))
    else Comparison(code, Convert(t, type1, a.prim), ConvertConstant(type1, c'))
  }

  /** The type two narrow operands are compared in. */
  function NarrowIn(t: Target, common: IntType, a: Operand, restype: IntType): IntType {
    SignedOrUnsigned(t, a.uns || restype.uns, common)
  }

  /** Both operands narrower than the nominal type, extended alike: compare in the wider of their types. */
  function BothNarrow(t: Target, common: IntType, a: Operand, b: Operand, restype: IntType, code: CompareOp): Shortened
    requires TargetOk(t)
  {
    var type0 := NarrowIn(t, common, a, restype);
    Comparison(code,
               Convert(t, type0, Convert(t, SignedOrUnsigned(t, a.uns, a.prim.ty), a.prim)),
               Convert(t, type0, Convert(t, SignedOrUnsigned(t, b.uns, b.prim.ty), b.prim)))
  }

  /** The comparison in the nominal type. */
  function Nominal(t: Target, op0: Tree, op1: Tree, restype: IntType, code: CompareOp): Shortened
    requires TargetOk(t)
  {
    if IntegerZerop(op1) && restype.uns && (code.Ge? || code.Lt?) then Decided(KeepEffects(op0, BooleanNode(t, code.Ge?)))
    else Comparison(code, Convert(t, restype, op0), Convert(t, restype, op1))
  }

  predicate ConstantCase(a: Operand, b: Operand, restype: IntType) {
    b.prim.Cst? && a.prim.ty.prec < restype.prec
  }

  predicate NarrowCase(a: Operand, b: Operand, restype: IntType) {
    a.uns == b.uns && a.prim.ty.prec < restype.prec && b.prim.ty.prec < restype.prec
  }

  predicate Swaps(a: Operand, b: Operand) {
    TreeConstant(a.prim) && !IntegerZerop(b.prim)
  }

  function ShortenFrom(t: Target, commonType: (IntType, IntType) -> IntType, a: Operand, b: Operand, restype: IntType, code: CompareOp): Shortened
    requires TargetOk(t) && a.prim.ty.prec >= 1
  {
    if ConstantCase(a, b, restype) then AgainstConstant(t, a, b, restype, code)
    else if NarrowCase(a, b, restype) then BothNarrow(t, commonType(a.prim.ty, b.prim.ty), a, b, restype, code)
    else Nominal(t, a.op, b.op, restype, code)
  }

  function Shorten(t: Target, commonType: (IntType, IntType) -> IntType, op0: Tree, op1: Tree, restype: IntType, code: CompareOp): Shortened
    requires TargetOk(t) && Look(op0, restype).prim.ty.prec >= 1 && Look(op1, restype).prim.ty.prec >= 1
  {
    var a, b := Look(op0, restype), Look(op1, restype);
    if Swaps(a, b) then ShortenFrom(t, commonType, b, a, restype, Swapped(code))
    else ShortenFrom(t, commonType, a, b, restype, code)
  }

  /** shorten_compare as it is written: the operands, nominal type and code are variables that the
      tests overwrite one after another.  Its three parts are methods of their own here. */
  method ShortenCompare(t: Target, commonType: (IntType, IntType) -> IntType, expr0: Tree, expr1: Tree, restype: IntType, operator: CompareOp)
    returns (result: Shortened)
    requires TargetOk(t) && Look(expr0, restype).prim.ty.prec >= 1 && Look(expr1, restype).prim.ty.prec >= 1
    ensures result == Shorten(t, commonType, expr0, expr1, restype, operator)
  {
    var op0, op1, code := expr0, expr1, operator;
    var primop0, unsignedp0 := GetNarrower(op0);
    var primop1, unsignedp1 := GetNarrower(op1);
    hide Convert, Narrower, Wrap, TreeConstant, IntegerZerop, AgainstConstant;
    if op0 == primop0 && op0.ty != restype {
      unsignedp0 := op0.ty.uns;
    }
    if op1 == primop1 && op1.ty != restype {
      unsignedp1 := op1.ty.uns;
    }
    if TreeConstant(primop0) && !IntegerZerop(primop1) {
      primop0, primop1 := primop1, primop0;
      op0, op1 := op1, op0;
      unsignedp0, unsignedp1 := unsignedp1, unsignedp0;
      code := SwapCode(code);
    }
    ghost var a, b := Operand(op0, primop0, unsignedp0), Operand(op1, primop1, unsignedp1);
    assert Shorten(t, commonType, expr0, expr1, restype, operator) == ShortenFrom(t, commonType, a, b, restype, code);
    assert primop0.ty.prec >= 1;
    hide Shorten, Look, TargetOk;
    if primop1.Cst? && primop0.ty.prec < restype.prec {
      result := ShortenAgainstConstant(t, op0, primop0, unsignedp0, op1, primop1, unsignedp1, restype, code);
    } else {
      result := ShortenBoth(t, commonType, op0, primop0, unsignedp0, op1, primop1, unsignedp1, restype, code);
    }
  }

  method SwapCode(operator: CompareOp) returns (code: CompareOp)
    ensures code == Swapped(operator)
  {
    code := operator;
    if code.Lt? {
      code := Gt;
    } else if code.Gt? {
      code := Lt;
    } else if code.Le? {
      code := Ge;
    } else if code.Ge? {
      code := Le;
    }
  }

  /** The tests of the range of the variable operand, each of which may overwrite the verdict. */
  method DecideByRange(code: CompareOp, c: int, minval: int, maxval: int) returns (val: Verdict)
    ensures val == Decide(code, c, minval, maxval)
  {
    var minGt, maxGt, minLt, maxLt := c < minval, c < maxval, minval < c, maxval < c;
    val := Unknown;
    if code.Ne? {
      if maxLt || minGt { val := Always(true); }
    } else if code.Eq? {
      if maxLt || minGt { val := Always(false); }
    } else if code.Lt? {
      if maxLt { val := Always(true); }
      if !minLt { val := Always(false); }
    } else if code.Gt? {
      if minGt { val := Always(true); }
      if !maxGt { val := Always(false); }
    } else if code.Le? {
      if !maxGt { val := Always(true); }
      if minGt { val := Always(false); }
    } else {
      if !minLt { val := Always(true); }
      if maxLt { val := Always(false); }
    }
  }

  method ShortenAgainstConstant(t: Target, op0: Tree, primop0: Tree, unsignedp0: bool, op1: Tree, constant: Tree, unsignedp1: bool,
                                nominalType: IntType, code: CompareOp) returns (result: Shortened)
    requires TargetOk(t) && constant.Cst? && primop0.ty.prec >= 1
    ensures result == AgainstConstant(t, Operand(op0, primop0, unsignedp0), Operand(op1, constant, unsignedp1), nominalType, code)
  {
    hide Convert, Wrap, SideEffects;
    var restype, primop1 := nominalType, constant;
    var unsignedp := restype.uns;
    var type0 := SignedOrUnsigned(t, unsignedp0, primop0.ty);
    var maxval, minval := MaxValue(type0), MinValue(type0);
    if unsignedp && !unsignedp0 {
      restype := t.signedOf(restype);
    }
    primop1 := ConvertConstant(restype, primop1);
    minval, maxval := Wrap(restype, minval), Wrap(restype, maxval);
    var val := DecideByRange(code, primop1.val, minval, maxval);
    hide Decide;
    if unsignedp && !unsignedp0 {
      if val != Unknown {
        if code.Lt? || code.Ge? {
          primop1 := Cst(type0, MinValue(type0));
          val := Unknown;
        } else if code.Le? || code.Gt? {
          primop1 := Cst(type0, MaxValue(type0));
          val := Unknown;
        }
      }
      type0 := t.unsignedOf(type0);
    }
    if val != Unknown {
      return Decided(KeepEffects(primop0, BooleanNode(t, val.b)));
    }
    result := Comparison(code, Convert(t, type0, primop0), ConvertConstant(type0, primop1));
  }

  method ShortenBoth(t: Target, commonType: (IntType, IntType) -> IntType, op0: Tree, prim0: Tree, unsignedp0: bool, op1: Tree, prim1: Tree,
                     unsignedp1: bool, restype: IntType, code: CompareOp) returns (result: Shortened)
    requires TargetOk(t) && prim0.ty.prec >= 1
    requires !ConstantCase(Operand(op0, prim0, unsignedp0), Operand(op1, prim1, unsignedp1), restype)
    ensures result == ShortenFrom(t, commonType, Operand(op0, prim0, unsignedp0), Operand(op1, prim1, unsignedp1), restype, code)
  {
    hide Convert, IntegerZerop, SideEffects;
    var primop0, primop1 := prim0, prim1;
    var type0: IntType;
    if unsignedp0 == unsignedp1 && primop0.ty.prec < restype.prec && primop1.ty.prec < restype.prec {
      type0 := SignedOrUnsigned(t, unsignedp0 || restype.uns, commonType(primop0.ty, primop1.ty));
      primop0 := Convert(t, SignedOrUnsigned(t, unsignedp0, primop0.ty), primop0);
      primop1 := Convert(t, SignedOrUnsigned(t, unsignedp1, primop1.ty), primop1);
    } else {
      type0 := restype;
      primop0 := op0;
      primop1 := op1;
      if IntegerZerop(primop1) && restype.uns {
        if code.Ge? {
          return Decided(KeepEffects(primop0, BooleanNode(t, true)));
        } else if code.Lt? {
          return Decided(KeepEffects(primop0, BooleanNode(t, false)));
        }
      }
    }
    result := Comparison(code, Convert(t, type0, primop0), Convert(t, type0, primop1));
  }
}
