/** Integer types of any precision and signedness, and arithmetic modulo a power of two
    (sections 6.2.1.2 and 6.2.1.5 of ISO/IEC 9899:1990). */
module IntegerTypes {

  /** `id` keeps apart types that agree in everything else (int and long); `modeBits` is the width
      of the machine mode that holds the type. */
  datatype IntType = IntType(prec: nat, uns: bool, enumeral: bool, modeBits: nat, id: nat)

  predicate WfType(t: IntType) {
    1 <= t.prec <= t.modeBits && t.modeBits >= 2
  }

  function Pow2(n: nat): (r: int)
    ensures r >= 1 && (n >= 1 ==> r >= 2)
  {
    if n == 0 then 1 else 2 * Pow2(n - 1)
  }

  /** The p low bits of v, read as an unsigned number. */
  function Bits(p: nat, v: int): (r: int)
    ensures 0 <= r < Pow2(p)
  {
    v % Pow2(p)
  }

  /** The value of the p low bits of v in a type of precision p. */
  function WrapTo(p: nat, uns: bool, v: int): int {
    if uns || p == 0 || Bits(p, v) < Pow2(p - 1) then Bits(p, v) else Bits(p, v) - Pow2(p)
  }

  function Wrap(t: IntType, v: int): int {
    WrapTo(t.prec, t.uns, v)
  }

  predicate Fits(p: nat, uns: bool, v: int) {
    if uns then 0 <= v < Pow2(p) else p >= 1 && -Pow2(p - 1) <= v < Pow2(p - 1)
  }

  predicate InRange(t: IntType, v: int) {
    Fits(t.prec, t.uns, v)
  }

  function MinValue(t: IntType): int
    requires t.prec >= 1
  {
    if t.uns then 0 else -Pow2(t.prec - 1)
  }

  function MaxValue(t: IntType): int
    requires t.prec >= 1
  {
    if t.uns then Pow2(t.prec) - 1 else Pow2(t.prec - 1) - 1
  }

  // ----- Powers and residues -----

  lemma {:induction false} Pow2Add(a: nat, b: nat)
    ensures Pow2(a + b) == Pow2(a) * Pow2(b)
  {
    if a > 0 {
      Pow2Add(a - 1, b);
      Regroup(2, Pow2(a - 1), Pow2(b));
    }
  }

  lemma {:induction false} Pow2Mono(a: nat, b: nat)
    requires a <= b
    ensures Pow2(a) <= Pow2(b)
    ensures a < b ==> 2 * Pow2(a) <= Pow2(b)
  {
    if a < b {
      Pow2Add(b - a, a);
      var x, y := Pow2(b - a), Pow2(a);
      assert x >= 2;
      hide *;
      assert x * y >= 2 * y;
    }
  }

  lemma {:induction false} Pow2Exceeds(n: nat)
    ensures n < Pow2(n)
  {
    if n > 0 {
      Pow2Exceeds(n - 1);
    }
  }

  /** Two numbers leave the same residue exactly when they differ by a multiple. */
  lemma {:induction false} ModUnique(a: int, m: int, q: int, r: int)
    requires m > 0 && a == q * m + r && 0 <= r < m
    ensures a % m == r
  {
    var d := a / m - q;
    assert a == (a / m) * m + a % m;
    assert d * m == r - a % m;
    assert d >= 1 ==> d * m >= m;
    assert d <= -1 ==> d * m <= -m;
  }

  lemma {:induction false} Regroup(k: int, x: int, y: int)
    ensures k * (x * y) == (k * x) * y
  {
  }

  lemma {:induction false} ModShift(a: int, k: int, m: int)
    requires m > 0
    ensures (a + k * m) % m == a % m
  {
    ModUnique(a + k * m, m, a / m + k, a % m);
  }

  lemma {:induction false} ModMultiple(a: int, b: int, m: int) returns (k: int)
    requires m > 0 && a % m == b % m
    ensures a == b + k * m
  {
    k := a / m - b / m;
    assert a == (a / m) * m + a % m && b == (b / m) * m + b % m;
  }

  /** v and w agree in their p low bits. */
  predicate Cong(p: nat, v: int, w: int) {
    Bits(p, v) == Bits(p, w)
  }

  lemma {:induction false} CongBy(p: nat, v: int, w: int, k: int)
    requires v == w + k * Pow2(p)
    ensures Cong(p, v, w)
  {
    ModShift(w, k, Pow2(p));
  }

  lemma {:induction false} CongLower(p: nat, q: nat, v: int, w: int)
    requires p <= q && Cong(q, v, w)
    ensures Cong(p, v, w)
  {
    var k := ModMultiple(v, w, Pow2(q));
    Pow2Add(q - p, p);
    Regroup(k, Pow2(q - p), Pow2(p));
    CongBy(p, v, w, k * Pow2(q - p));
  }

  lemma {:induction false} BitsCong(p: nat, v: int)
    ensures Cong(p, Bits(p, v), v)
  {
    var m := Pow2(p);
    assert v == (v / m) * m + v % m;
    CongBy(p, Bits(p, v), v, -(v / m));
  }

  lemma {:induction false} WrapCong(p: nat, q: nat, uns: bool, v: int)
    requires q <= p
    ensures Cong(q, WrapTo(p, uns, v), v)
  {
    BitsCong(p, v);
    CongBy(p, Bits(p, v) - Pow2(p), Bits(p, v), -1);
    CongLower(q, p, WrapTo(p, uns, v), v);
  }

  lemma {:induction false} WrapFits(p: nat, uns: bool, v: int)
    requires p >= 1
    ensures Fits(p, uns, WrapTo(p, uns, v))
  {
  }

  lemma {:induction false} WrapOfFitting(p: nat, uns: bool, v: int)
    requires Fits(p, uns, v)
    ensures WrapTo(p, uns, v) == v
  {
    BitsOfFitting(p, uns, v);
  }

  lemma {:induction false} BitsOfFitting(p: nat, uns: bool, v: int)
    requires Fits(p, uns, v)
    ensures Bits(p, v) == if v >= 0 then v else v + Pow2(p)
  {
    ModUnique(v, Pow2(p), if v >= 0 then 0 else -1, if v >= 0 then v else v + Pow2(p));
  }

  lemma {:induction false} CongWrap(p: nat, uns: bool, v: int, w: int)
    ensures Cong(p, v, w) ==> WrapTo(p, uns, v) == WrapTo(p, uns, w)
  {
  }

  /** Wrapping twice, the second time to no more bits, is wrapping once. */
  lemma {:induction false} WrapWrap(p: nat, uns: bool, q: nat, qUns: bool, v: int)
    requires p <= q
    ensures WrapTo(p, uns, WrapTo(q, qUns, v)) == WrapTo(p, uns, v)
  {
    WrapCong(q, p, qUns, v);
  }

  lemma {:induction false} FitsWider(p: nat, uns: bool, q: nat, qUns: bool, v: int)
    requires Fits(p, uns, v) && p < q && (uns || !qUns)
    ensures Fits(q, qUns, v)
  {
    Pow2Mono(p, q - 1);
    if !uns {
      Pow2Mono(p - 1, q - 1);
    }
  }

  // ----- Arithmetic respects residues -----

  lemma {:induction false} CongAdd(p: nat, a: int, a': int, b: int, b': int)
    requires Cong(p, a, a') && Cong(p, b, b')
    ensures Cong(p, a + b, a' + b') && Cong(p, a - b, a' - b')
  {
    var k := ModMultiple(a, a', Pow2(p));
    var l := ModMultiple(b, b', Pow2(p));
    CongBy(p, a + b, a' + b', k + l);
    CongBy(p, a - b, a' - b', k - l);
  }

  lemma {:induction false} CongMulLeft(p: nat, a: int, a': int, b: int)
    requires Cong(p, a, a')
    ensures Cong(p, a * b, a' * b) && Cong(p, b * a, b * a')
  {
    var m := Pow2(p);
    var k := ModMultiple(a, a', m);
    assert (a' + k * m) * b == a' * b + (k * m) * b;
    assert (k * m) * b == (k * b) * m;
    CongBy(p, a * b, a' * b, k * b);
    assert a * b == b * a && a' * b == b * a';
  }

  lemma {:induction false} CongMul(p: nat, a: int, a': int, b: int, b': int)
    requires Cong(p, a, a') && Cong(p, b, b')
    ensures Cong(p, a * b, a' * b')
  {
    CongMulLeft(p, a, a', b);
    CongMulLeft(p, b, b', a');
  }

  // ----- Bitwise operations -----

  datatype Bitwise = And | Ior | Xor | Andtc

  function BitOf(f: Bitwise, a: bool, b: bool): bool {
    match f
    case And => a && b
    case Ior => a || b
    case Xor => a != b
    case Andtc => a && !b
  }

  /** The bitwise operation on the p low bits of two integers (two's complement when negative). */
  function BitOp(f: Bitwise, p: nat, a: int, b: int): (r: int)
    ensures 0 <= r < Pow2(p)
    decreases p
  {
    if p == 0 then 0
    else (if BitOf(f, a % 2 == 1, b % 2 == 1) then 1 else 0) + 2 * BitOp(f, p - 1, a / 2, b / 2)
  }

  lemma {:induction false} HalfCong(p: nat, a: int, a': int)
    requires p >= 1 && Cong(p, a, a')
    ensures a % 2 == a' % 2 && Cong(p - 1, a / 2, a' / 2)
  {
    var k := ModMultiple(a, a', Pow2(p));
    assert Pow2(p) == 2 * Pow2(p - 1);
    var y := k * Pow2(p - 1);
    assert a == a' + 2 * y by {
      assert k * (2 * Pow2(p - 1)) == 2 * (k * Pow2(p - 1));
    }
    CongBy(p - 1, a / 2, a' / 2, k);
  }

  /** A bitwise operation sees only the low bits. */
  lemma {:induction false} BitOpCong(f: Bitwise, p: nat, a: int, a': int, b: int, b': int)
    requires Cong(p, a, a') && Cong(p, b, b')
    ensures BitOp(f, p, a, b) == BitOp(f, p, a', b')
    decreases p
  {
    if p > 0 {
      HalfCong(p, a, a');
      HalfCong(p, b, b');
      BitOpCong(f, p - 1, a / 2, a' / 2, b / 2, b' / 2);
    }
  }

  lemma {:induction false} DoubleMultiple(k: int, p: nat)
    requires p >= 1
    ensures 2 * (k * Pow2(p - 1)) == k * Pow2(p)
  {
    assert Pow2(p) == 2 * Pow2(p - 1);
  }

  /** The low bits of a wide result are the narrow result. */
  lemma {:induction false} BitOpLow(f: Bitwise, p: nat, q: nat, a: int, b: int)
    requires p <= q
    ensures Cong(p, BitOp(f, q, a, b), BitOp(f, p, a, b))
    decreases p
  {
    if p > 0 {
      BitOpLow(f, p - 1, q - 1, a / 2, b / 2);
      var x, y := BitOp(f, q - 1, a / 2, b / 2), BitOp(f, p - 1, a / 2, b / 2);
      var k := ModMultiple(x, y, Pow2(p - 1));
      DoubleMultiple(k, p);
      var z := k * Pow2(p - 1);
      assert BitOp(f, q, a, b) - BitOp(f, p, a, b) == 2 * x - 2 * y == 2 * z;
      CongBy(p, BitOp(f, q, a, b), BitOp(f, p, a, b), k);
    }
  }

  lemma {:induction false} MaskedOne(p: nat, v: int)
    requires p >= 1
    ensures BitOp(And, p, v, 1) == v % 2
  {
    AndZero(p - 1, v / 2);
  }

  lemma {:induction false} AndZero(p: nat, v: int)
    ensures BitOp(And, p, v, 0) == 0
    decreases p
  {
    if p > 0 {
      AndZero(p - 1, v / 2);
    }
  }

  /** How the operations are related in arithmetic: and with inclusive or makes the sum, exclusive or is
      what they differ by, and taking out one number's bits leaves the rest. */
  lemma {:induction false} BitOpSums(p: nat, a: int, b: int)
    ensures BitOp(And, p, a, b) + BitOp(Ior, p, a, b) == Bits(p, a) + Bits(p, b)
    ensures BitOp(Xor, p, a, b) == BitOp(Ior, p, a, b) - BitOp(And, p, a, b)
    ensures BitOp(Andtc, p, a, b) == Bits(p, a) - BitOp(And, p, a, b)
    decreases p
  {
    if p > 0 {
      BitOpSums(p - 1, a / 2, b / 2);
      HalfBits(p, a);
      HalfBits(p, b);
    } else {
      assert a % 1 == 0 && b % 1 == 0;
    }
  }

  lemma {:induction false} HalfBits(p: nat, a: int)
    requires p >= 1
    ensures Bits(p, a) == 2 * Bits(p - 1, a / 2) + a % 2
  {
    var m, h := Pow2(p - 1), a / 2;
    DoubleMultiple(h / m, p);
    assert h == (h / m) * m + h % m;
    ModUnique(a, Pow2(p), h / m, 2 * (h % m) + a % 2);
  }
}
