/** Conversion to an integer type (convert in c-convert.c, convert_to_integer in convert.c): the tree
    returned has the original value truncated to the type, and the original side effects. */
module IntegerConversion {
  import opened IntegerTypes
  import opened Trees

  /** What the conversion takes from elsewhere: BITS_PER_WORD, TRULY_NOOP_TRUNCATION, type_for_mode,
      type_for_size, signed_type, unsigned_type, signed_or_unsigned_type, integer_type_node and fold.
      `depth` is how far conversions of what fold has made out of narrowed trees go on within one
      another; Settles says which depth makes no difference. */
  datatype Target = Target(
    bitsPerWord: nat,
    noopTruncation: (nat, nat) -> bool,
    forMode: (nat, bool) -> IntType,
    forSize: (nat, bool) -> IntType,
    signedOf: IntType -> IntType,
    unsignedOf: IntType -> IntType,
    withSign: (bool, IntType) -> IntType,
    intType: IntType,
    fold: Tree -> Tree,
    depth: nat)

  predicate TruthLike(e: Tree) {
    e.Truth? || e.TruthNot?
  }

  /** An enumeral type, or one narrower than its mode, is reached through the type of the mode. */
  predicate Detours(type0: IntType) {
    type0.enumeral || type0.prec != type0.modeBits
  }

  /** A type that is x but for its sign. */
  predicate Resigned(r: IntType, x: IntType, uns: bool) {
    r.prec == x.prec && r.modeBits == x.modeBits && r.uns == uns && !r.enumeral
  }

  /** The types have the widths and signs their names say; types that do not fill their mode have no
      signed or unsigned counterpart. Nothing is asked of fold. */
  ghost predicate TargetOk(t: Target) {
    && (forall b: nat, u: bool :: t.forMode(b, u).prec == b == t.forMode(b, u).modeBits && t.forMode(b, u).uns == u && !t.forMode(b, u).enumeral)
    && (forall x: IntType :: !Detours(x) ==> Resigned(t.signedOf(x), x, false) && Resigned(t.unsignedOf(x), x, true))
    && (forall u: bool, x: IntType :: t.withSign(u, x).prec == x.prec && (x.prec == x.modeBits ==> Resigned(t.withSign(u, x), x, u)))
    && WfType(t.intType) && !t.intType.uns && HoldsOne(t.intType)
  }

  /** A target without surprises, whose fold does nothing. */
  function PlainTarget(word: nat): Target {
    Target(word, (a: nat, b: nat) => true,
           (b: nat, u: bool) => IntType(b, u, false, b, 0), (b: nat, u: bool) => IntType(b, u, false, b, 0),
           (x: IntType) => IntType(x.prec, false, false, x.modeBits, 0), (x: IntType) => IntType(x.prec, true, false, x.modeBits, 0),
           (u: bool, x: IntType) => IntType(x.prec, u, false, x.modeBits, 0),
           IntType(word + 2, false, false, word + 2, 0), (e: Tree) => e, 0)
  }

  /** Some target meets all that is asked of it. */
  lemma {:induction false} PlainTargetOk(word: nat)
    ensures TargetOk(PlainTarget(word))
  {
  }

  /** The termination measure at one depth: a conversion that neither narrows nor enters a logical
      operation is immediate; any other works on strictly smaller trees, after at most one detour. */
  function Work(type0: IntType, e: Tree): nat {
    if e.ty == type0 || e.Compare? then 0
    else if TruthLike(e) then 2 * Size(e)
    else if type0.prec >= e.ty.prec then 0
    else 2 * Size(e) + (if Detours(type0) then 1 else 0)
  }

  /** TYPEX: the type the arithmetic is done in. */
  function WorkType(t: Target, type0: IntType, uns: bool): IntType {
    var x := if type0.enumeral then t.forSize(type0.prec, type0.uns) else type0;
    if uns then t.unsignedOf(x) else t.signedOf(x)
  }

  function Convert(t: Target, type0: IntType, e: Tree): Tree
    requires TargetOk(t)
    decreases t.depth, Work(type0, e), 3
  {
    if type0 == e.ty then e else t.fold(ConvertToInteger(t, type0, e))
  }

  function ConvertToInteger(t: Target, type0: IntType, e: Tree): Tree
    requires TargetOk(t) && (type0 != e.ty || e.Cst?)
    decreases t.depth, Work(type0, e), 2
  {
    if e.Compare? then Compare(e.cop, type0, e.l, e.r)
    else if e.Truth? then Truth(e.top, type0, Convert(t, type0, e.l), Convert(t, type0, e.r))
    else if e.TruthNot? then TruthNot(type0, Convert(t, type0, e.arg))
    else if type0.prec >= e.ty.prec then Nop(type0, e)
    else if Detours(type0) then Nop(type0, Convert(t, t.forMode(type0.modeBits, type0.uns), e))
    else Narrow(t, type0, e)
  }

  /** The switch of convert_to_integer: distributing a truncation into the expression. */
  function Narrow(t: Target, type0: IntType, e: Tree): Tree
    requires TargetOk(t) && type0.prec < e.ty.prec && !Detours(type0) && !e.Compare? && !TruthLike(e)
    decreases t.depth, Work(type0, e), 1
  {
    match e
    case Binary(op, _, l, r) =>
      (match op
       case RShift => if r.Cst? && r.val < 1 then Distribute(t, type0, e) else Nop(type0, e)
       case LShift =>
         if r.Cst? && r.val >= 0 then
           if r.val < type0.modeBits then Distribute(t, type0, e)
           else
             var zero := ConvertToInteger(t, type0, Cst(t.intType, 0));
             if SideEffects(e) then Compound(type0, e, zero) else zero
         else Nop(type0, e)
       case MinOp => if Undistorted(type0.prec, e) then Distribute(t, type0, e) else Nop(type0, e)
       case MaxOp => if Undistorted(type0.prec, e) then Distribute(t, type0, e) else Nop(type0, e)
       case Mult => if Undistorted(type0.prec, e) then Distribute(t, type0, e) else Nop(type0, e)
       case Plus => Distribute(t, type0, e)
       case Minus => Distribute(t, type0, e)
       case BitAnd => Distribute(t, type0, e)
       case BitIor => Distribute(t, type0, e)
       case BitXor => Distribute(t, type0, e)
       case BitAndtc => Distribute(t, type0, e)
       case LRotate => Nop(type0, e)
       case RRotate => Nop(type0, e)
       case Other(_) => Nop(type0, e))
    case Unary(op, _, a) =>
      if op.Negate? || op.BitNot? then
        // TypexNarrower: TYPEX is never as wide as the expression, so the source's fall-through
        // from here to the NOP_EXPR case is never taken.
        var typex := WorkType(t, type0, e.ty.uns);
        Again(t, type0, t.fold(Unary(op, typex, Convert(t, typex, a))))
      else Nop(type0, e)
    case Nop(_, a) => Convert(t, type0, Unwiden(a, type0.prec))
    case Cond(_, c, l, r) =>
      var arg1, arg2 := Unwiden(l, type0.prec), Unwiden(r, type0.prec);
      if WorthIt(t, type0, e, arg1, arg2) then
        var typex := WorkType(t, type0, e.ty.uns);
        Again(t, type0, t.fold(Cond(typex, c, Convert(t, typex, arg1), Convert(t, typex, arg2))))
      else Nop(type0, e)
    case _ => Nop(type0, e)
  }

  predicate WorthIt(t: Target, type0: IntType, e: Tree, arg0: Tree, arg1: Tree) {
    type0.prec >= t.bitsPerWord || t.noopTruncation(type0.prec, e.ty.prec) ||
    e.ty.prec > arg0.ty.prec || e.ty.prec > arg1.ty.prec
  }

  /** trunc1: the arithmetic done on truncated operands. */
  function Distribute(t: Target, type0: IntType, e: Tree): Tree
    requires TargetOk(t) && type0.prec < e.ty.prec && !Detours(type0) && e.Binary?
    decreases t.depth, Work(type0, e), 0
  {
    var arg0, arg1 := Unwiden(e.l, type0.prec), Unwiden(e.r, type0.prec);
    if WorthIt(t, type0, e, arg0, arg1) then
      var typex := WorkType(t, type0, e.ty.uns || arg0.ty.uns || arg1.ty.uns);
      Again(t, type0, t.fold(Binary(e.op, typex, Convert(t, typex, arg0), Convert(t, typex, arg1))))
    else Nop(type0, e)
  }

  /** Converting what fold has made of the narrowed tree. It is as narrow already, but may have become
      a logical operation, whose operands are converted in turn. */
  function Again(t: Target, type0: IntType, x: Tree): Tree
    requires TargetOk(t)
    decreases t.depth, 1, 0
  {
    if Work(type0, x) == 0 then Convert(t, type0, x)
    else if t.depth > 0 then Convert(Inside(t), type0, x)
    else Nop(type0, x)
  }

  function Inside(t: Target): (r: Target)
    requires TargetOk(t) && t.depth > 0
    ensures TargetOk(r) && r.fold == t.fold && r.depth < t.depth
  {
    t.(depth := t.depth - 1)
  }

  /** Past the early returns the tests `TYPE_PRECISION (typex) != inprec` always succeed. */
  lemma {:induction false} TypexNarrower(t: Target, type0: IntType, e: Tree, uns: bool)
    requires TargetOk(t) && type0.prec < e.ty.prec && !Detours(type0)
    ensures WorkType(t, type0, uns).prec == type0.prec != e.ty.prec
  {
  }

  // ----- What fold is given -----

  /** Every tree given to fold while e is converted to type0 is `good`. */
  ghost predicate Folds(t: Target, type0: IntType, e: Tree, good: Tree -> bool)
    requires TargetOk(t)
    decreases t.depth, Work(type0, e), 3
  {
    type0 == e.ty || (FoldsInside(t, type0, e, good) && good(ConvertToInteger(t, type0, e)))
  }

  ghost predicate FoldsInside(t: Target, type0: IntType, e: Tree, good: Tree -> bool)
    requires TargetOk(t) && type0 != e.ty
    decreases t.depth, Work(type0, e), 2
  {
    if e.Compare? then true
    else if e.Truth? then Folds(t, type0, e.l, good) && Folds(t, type0, e.r, good)
    else if e.TruthNot? then Folds(t, type0, e.arg, good)
    else if type0.prec >= e.ty.prec then true
    else if Detours(type0) then Folds(t, t.forMode(type0.modeBits, type0.uns), e, good)
    else FoldsNarrow(t, type0, e, good)
  }

  /** The cases of the switch that do the arithmetic on truncated operands. */
  predicate Distributes(type0: IntType, e: Tree) {
    && e.Binary? && !e.op.LRotate? && !e.op.RRotate? && !e.op.Other?
    && (e.op.RShift? ==> e.r.Cst? && e.r.val < 1)
    && (e.op.LShift? ==> e.r.Cst? && 0 <= e.r.val < type0.modeBits)
    && (e.op.MinOp? || e.op.MaxOp? || e.op.Mult? ==> Undistorted(type0.prec, e))
  }

  ghost predicate FoldsNarrow(t: Target, type0: IntType, e: Tree, good: Tree -> bool)
    requires TargetOk(t) && type0.prec < e.ty.prec && !Detours(type0) && !e.Compare? && !TruthLike(e)
    decreases t.depth, Work(type0, e), 1
  {
    match e
    case Binary(_, _, _, _) => Distributes(type0, e) ==> FoldsBinary(t, type0, e, good)
    case Unary(op, _, a) =>
      op.Negate? || op.BitNot? ==>
        var typex := WorkType(t, type0, e.ty.uns);
        Folds(t, typex, a, good) && FoldsAgain(t, type0, Unary(op, typex, Convert(t, typex, a)), good)
    case Nop(_, a) => Folds(t, type0, Unwiden(a, type0.prec), good)
    case Cond(_, c, l, r) =>
      var arg1, arg2 := Unwiden(l, type0.prec), Unwiden(r, type0.prec);
      WorthIt(t, type0, e, arg1, arg2) ==>
        var typex := WorkType(t, type0, e.ty.uns);
        && Folds(t, typex, arg1, good) && Folds(t, typex, arg2, good)
        && FoldsAgain(t, type0, Cond(typex, c, Convert(t, typex, arg1), Convert(t, typex, arg2)), good)
    case _ => true
  }

  ghost predicate FoldsBinary(t: Target, type0: IntType, e: Tree, good: Tree -> bool)
    requires TargetOk(t) && type0.prec < e.ty.prec && !Detours(type0) && e.Binary?
    decreases t.depth, Work(type0, e), 0
  {
    var arg0, arg1 := Unwiden(e.l, type0.prec), Unwiden(e.r, type0.prec);
    WorthIt(t, type0, e, arg0, arg1) ==>
      var typex := WorkType(t, type0, e.ty.uns || arg0.ty.uns || arg1.ty.uns);
      && Folds(t, typex, arg0, good) && Folds(t, typex, arg1, good)
      && FoldsAgain(t, type0, Binary(e.op, typex, Convert(t, typex, arg0), Convert(t, typex, arg1)), good)
  }

  ghost predicate FoldsAgain(t: Target, type0: IntType, b: Tree, good: Tree -> bool)
    requires TargetOk(t)
    decreases t.depth, 1, 0
  {
    good(b) &&
    var x := t.fold(b);
    if Work(type0, x) == 0 then Folds(t, type0, x, good) else t.depth > 0 ==> Folds(Inside(t), type0, x, good)
  }

  // ----- What the operations keep -----

  /** Doing the operation on the low bits gives the low bits of the result. */
  lemma {:induction false} LowBits(env: Env, op: BinaryOp, p: nat, wide: IntType, narrow: IntType, v: int, w: int, x: int, y: int)
    requires op.Plus? || op.Minus? || op.Mult? || op.BitAnd? || op.BitIor? || op.BitXor? || op.BitAndtc?
    requires narrow.prec == p <= wide.prec && Cong(p, v, x) && Cong(p, w, y)
    ensures Cong(p, BinaryValue(env, op, wide, v, w), BinaryValue(env, op, narrow, x, y))
  {
    match op
    case Plus => CongAdd(p, v, x, w, y);
    case Minus => CongAdd(p, v, x, w, y);
    case Mult => CongMul(p, v, x, w, y);
    case BitAnd => LowBitwise(And, p, wide.prec, v, w, x, y);
    case BitIor => LowBitwise(Ior, p, wide.prec, v, w, x, y);
    case BitXor => LowBitwise(Xor, p, wide.prec, v, w, x, y);
    case BitAndtc => LowBitwise(Andtc, p, wide.prec, v, w, x, y);
  }

  lemma {:induction false} LowBitwise(f: Bitwise, p: nat, q: nat, v: int, w: int, x: int, y: int)
    requires p <= q && Cong(p, v, x) && Cong(p, w, y)
    ensures Cong(p, BitOp(f, q, v, w), BitOp(f, p, x, y))
  {
    BitOpLow(f, p, q, v, w);
    BitOpCong(f, p, v, x, w, y);
  }

  lemma {:induction false} LowUnary(op: UnaryOp, p: nat, t: IntType, v: int, x: int)
    requires (op.Negate? || op.BitNot?) && Cong(p, v, x)
    ensures Cong(p, UnaryValue(op, t, v), UnaryValue(op, t, x))
  {
    CongAdd(p, 0, 0, v, x);
    CongAdd(p, -v, -x, 1, 1);
  }
}
