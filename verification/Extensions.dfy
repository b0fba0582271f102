/** What a chain of conversions does to a value: however long, it keeps some low bits and extends
    them, by zeros, by sign, or by sign and then cut off at a modulus. */
module Extensions {
  import opened IntegerTypes

  datatype Shape = Unsigned(bits: nat) | Signed(bits: nat) | Lifted(bits: nat, modulus: nat)

  predicate WfShape(s: Shape) {
    1 <= s.bits && (s.Lifted? ==> s.bits < s.modulus)
  }

  /** The value a chain of this shape gives to z. */
  function ValueOf(s: Shape, z: int): int {
    match s
    case Unsigned(j) => Bits(j, z)
    case Signed(j) => WrapTo(j, false, z)
    case Lifted(j, k) => Bits(k, WrapTo(j, false, z))
  }

  function ShapeOfType(t: IntType): Shape {
    if t.uns then Unsigned(t.prec) else Signed(t.prec)
  }

  /** The shape after one more conversion. */
  function Retyped(s: Shape, t: IntType): Shape {
    if t.prec <= s.bits then ShapeOfType(t)
    else match s
      case Unsigned(_) => s
      case Signed(j) => if t.uns then Lifted(j, t.prec) else s
      case Lifted(j, k) =>
        if t.uns then if t.prec < k then Lifted(j, t.prec) else s
        else if t.prec <= k then Signed(j) else s
  }

  lemma {:induction false} RetypedWf(s: Shape, t: IntType)
    requires WfShape(s) && WfType(t)
    ensures WfShape(Retyped(s, t)) && Retyped(s, t).bits <= s.bits && Retyped(s, t).bits <= t.prec
  {
  }

  lemma {:induction false} SignedFits(j: nat, z: int)
    requires j >= 1
    ensures Fits(j, false, WrapTo(j, false, z)) && Cong(j, WrapTo(j, false, z), z)
  {
    WrapFits(j, false, z);
    WrapCong(j, j, false, z);
  }

  /** The value keeps the low bits of z. */
  lemma {:induction false} ValueCong(s: Shape, z: int)
    requires WfShape(s)
    ensures Cong(s.bits, ValueOf(s, z), z)
  {
    match s
    case Unsigned(j) => BitsCong(j, z);
    case Signed(j) => SignedFits(j, z);
    case Lifted(j, k) =>
      SignedFits(j, z);
      BitsCong(k, WrapTo(j, false, z));
      CongLower(j, k, Bits(k, WrapTo(j, false, z)), WrapTo(j, false, z));
  }

  /** Narrowing to no more than the bits kept. */
  lemma {:induction false} NarrowedValue(s: Shape, t: IntType, z: int)
    requires WfShape(s) && WfType(t) && t.prec <= s.bits
    ensures Wrap(t, ValueOf(s, z)) == ValueOf(ShapeOfType(t), z)
  {
    ValueCong(s, z);
    CongLower(t.prec, s.bits, ValueOf(s, z), z);
    hide ValueOf;
    CongWrap(t.prec, t.uns, ValueOf(s, z), z);
    TypeValue(t, z);
  }

  lemma {:induction false} TypeValue(t: IntType, z: int)
    ensures ValueOf(ShapeOfType(t), z) == Wrap(t, z)
  {
  }

  lemma {:induction false} SignedWidened(j: nat, t: IntType, z: int)
    requires 1 <= j < t.prec
    ensures !t.uns ==> Wrap(t, WrapTo(j, false, z)) == WrapTo(j, false, z)
  {
    SignedFits(j, z);
    if !t.uns {
      FitsWider(j, false, t.prec, false, WrapTo(j, false, z));
      WrapOfFitting(t.prec, false, WrapTo(j, false, z));
    }
  }

  lemma {:induction false} LiftedRetyped(j: nat, k: nat, t: IntType, z: int)
    requires 1 <= j < k && j < t.prec && WfType(t)
    ensures Wrap(t, ValueOf(Lifted(j, k), z)) == ValueOf(Retyped(Lifted(j, k), t), z)
  {
    var v := WrapTo(j, false, z);
    var w := Bits(k, v);
    BitsCong(k, v);
    if t.prec <= k {
      CongLower(t.prec, k, w, v);
      CongWrap(t.prec, t.uns, w, v);
      SignedWidened(j, t, z);
    } else {
      FitsWider(k, true, t.prec, t.uns, w);
      WrapOfFitting(t.prec, t.uns, w);
    }
  }

  /** Converting a value of a shape gives the value of the shape converted. */
  lemma {:induction false} RetypedValue(s: Shape, t: IntType, z: int)
    requires WfShape(s) && WfType(t)
    ensures Wrap(t, ValueOf(s, z)) == ValueOf(Retyped(s, t), z)
  {
    if t.prec <= s.bits {
      NarrowedValue(s, t, z);
    } else {
      match s
      case Unsigned(j) =>
        FitsWider(j, true, t.prec, t.uns, Bits(j, z));
        WrapOfFitting(t.prec, t.uns, Bits(j, z));
      case Signed(j) => SignedWidened(j, t, z);
      case Lifted(j, k) => LiftedRetyped(j, k, t, z);
    }
  }

  // ----- Comparing in a narrow type -----

  /** Some values have the highest of p bits set. */
  predicate HasTops(p: nat, s: Shape) {
    match s
    case Unsigned(j) => j == p
    case Signed(_) => true
    case Lifted(_, k) => k >= p
  }

  /** Values with that bit set stand just below this power of two (below zero if signed). */
  function Ceiling(p: nat, s: Shape): nat {
    if s.Lifted? then s.modulus else p
  }

  function Offset(p: nat, s: Shape): int {
    if s.Signed? then -Pow2(p) else Pow2(Ceiling(p, s)) - Pow2(p)
  }

  /** Numbers of these two shapes compare as their p low bits do, taken as unsigned or as signed
      numbers: values with the top bit set are below zero exactly when comparing as signed, and when
      comparing as unsigned both shapes put them below one power of two, unless the shape that puts
      them higher has only one. */
  predicate KeepsOrder(p: nat, uns: bool, a: Shape, b: Shape) {
    && (HasTops(p, a) ==> a.Signed? == !uns)
    && (HasTops(p, b) ==> b.Signed? == !uns)
    && (uns && HasTops(p, a) && HasTops(p, b) ==>
          Ceiling(p, a) == Ceiling(p, b)
          || (Ceiling(p, a) < Ceiling(p, b) && b.bits == 1) || (Ceiling(p, b) < Ceiling(p, a) && a.bits == 1))
  }

  /** A value is its p low bits, or if the top bit is set those bits and the offset. */
  ghost predicate Stands(p: nat, s: Shape, v: int)
    requires p >= 1
  {
    var a := Bits(p, v);
    if a < Pow2(p - 1) || !HasTops(p, s) then v == a && a < Pow2(p - 1)
    else v == a + Offset(p, s) && (s.bits == 1 && !s.Unsigned? ==> a == Pow2(p) - 1)
  }

  lemma {:induction false} SignedStands(p: nat, j: nat, v: int)
    requires p >= 1 && 1 <= j <= p && Fits(j, false, v)
    ensures Stands(p, Signed(j), v)
    ensures Bits(p, v) == if v < 0 then v + Pow2(p) else v
    ensures j == 1 && v < 0 ==> v == -1
  {
    Pow2Mono(j - 1, p - 1);
    BitsOfFitting(p, false, v);
    assert Pow2(0) == 1;
  }

  lemma {:induction false} LiftedStands(p: nat, j: nat, k: nat, v: int)
    requires p >= 1 && 1 <= j <= p && j < k && Fits(j, false, v)
    ensures Stands(p, Lifted(j, k), Bits(k, v))
  {
    var w := Bits(k, v);
    SignedStands(p, j, v);
    Pow2Mono(j - 1, k - 1);
    BitsOfFitting(k, false, v);
    if p <= k {
      BitsCong(k, v);
      CongLower(p, k, w, v);
    } else {
      Pow2Mono(k, p - 1);
      BitsOfFitting(p, true, w);
    }
  }

  lemma {:induction false} ShapeStands(p: nat, s: Shape, z: int)
    requires WfShape(s) && s.bits <= p
    ensures Stands(p, s, ValueOf(s, z))
  {
    match s
    case Unsigned(j) =>
      Pow2Mono(j, p);
      if j < p {
        Pow2Mono(j, p - 1);
      }
      BitsOfFitting(p, true, Bits(j, z));
    case Signed(j) =>
      SignedFits(j, z);
      SignedStands(p, j, WrapTo(j, false, z));
    case Lifted(j, k) =>
      SignedFits(j, z);
      LiftedStands(p, j, k, WrapTo(j, false, z));
  }

  /** Where the shapes keep order, different low bits compare as the numbers do. */
  lemma {:induction false} OrderKept(p: nat, uns: bool, a: Shape, b: Shape, v: int, w: int)
    requires p >= 1 && Stands(p, a, v) && Stands(p, b, w) && KeepsOrder(p, uns, a, b) && Bits(p, v) != Bits(p, w)
    requires WfShape(a) && WfShape(b) && a.bits <= p && b.bits <= p
    ensures w < v <==> WrapTo(p, uns, w) < WrapTo(p, uns, v)
  {
    CeilingsDiffer(p, a, b);
  }

  lemma {:induction false} CeilingsDiffer(p: nat, a: Shape, b: Shape)
    requires p >= 1
    ensures var c, d := Ceiling(p, a), Ceiling(p, b);
      && (c < d ==> Pow2(c) < Pow2(d)) && (d < c ==> Pow2(d) < Pow2(c)) && (p <= c ==> Pow2(p) <= Pow2(c)) && (p <= d ==> Pow2(p) <= Pow2(d))
      && (p <= c < d ==> 2 * Pow2(c) <= Pow2(d)) && (p <= d < c ==> 2 * Pow2(d) <= Pow2(c))
  {
    var c, d := Ceiling(p, a), Ceiling(p, b);
    if c <= d { Pow2Mono(c, d); } else { Pow2Mono(d, c); }
    if p <= c { Pow2Mono(p, c); }
    if p <= d { Pow2Mono(p, d); }
  }

  // ----- Values that show a difference -----

  /** A shape with the top bit gives it to -1, and to -2 if it has more than one such value. */
  lemma {:induction false} TopValues(p: nat, s: Shape)
    requires p >= 2 && WfShape(s) && s.bits <= p
    ensures ValueOf(s, 0) == 0
    ensures HasTops(p, s) ==> ValueOf(s, -1) == Pow2(p) - 1 + Offset(p, s)
    ensures HasTops(p, s) && s.bits >= 2 ==> ValueOf(s, -2) == Pow2(p) - 2 + Offset(p, s)
  {
    Pow2Mono(1, p);
    var j := s.bits;
    assert Pow2(1) == 2 && Pow2(0) == 1;
    if j >= 2 { Pow2Mono(1, j - 1); }
    WrapOfFitting(j, true, 0);
    WrapOfFitting(j, false, 0);
    WrapOfFitting(j, false, -1);
    BitsOfFitting(j, false, -1);
    if j >= 2 {
      WrapOfFitting(j, false, -2);
      BitsOfFitting(j, false, -2);
    }
    if s.Lifted? {
      var k := s.modulus;
      Pow2Mono(1, k - 1);
      WrapOfFitting(k, true, 0);
      BitsOfFitting(k, false, -1);
      BitsOfFitting(k, false, -2);
    }
  }

  /** Two inputs, one odd and one even, that compare one way as numbers and the other as low bits. */
  lemma {:induction false} OrderLost(p: nat, uns: bool, a: Shape, b: Shape) returns (x: int, y: int)
    requires p >= 2 && WfShape(a) && WfShape(b) && a.bits <= p && b.bits <= p && !KeepsOrder(p, uns, a, b)
    ensures x % 2 != y % 2 && ValueOf(a, x) != ValueOf(b, y)
    ensures ValueOf(b, y) < ValueOf(a, x) <==> !(WrapTo(p, uns, ValueOf(b, y)) < WrapTo(p, uns, ValueOf(a, x)))
  {
    TopValues(p, a);
    TopValues(p, b);
    CeilingsDiffer(p, a, b);
    if HasTops(p, a) && a.Signed? != !uns {
      x, y := -1, 0;
    } else if HasTops(p, b) && b.Signed? != !uns {
      x, y := 0, -1;
    } else if Ceiling(p, a) < Ceiling(p, b) {
      x, y := -1, -2;
    } else {
      x, y := -2, -1;
    }
    ShapeStands(p, a, x);
    ShapeStands(p, b, y);
    hide ValueOf, Pow2, WfShape;
  }
}
