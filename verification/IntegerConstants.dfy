/** Integer constants (c-lex.c): digits gathered in an array of bytes, the two words made of them,
    and the type (section 6.1.3.2 of ISO/IEC 9899:1990). */
module IntegerConstants {
  import opened IntegerTypes

  // ----- Numbers in bytes -----

  function Power256(n: nat): (r: int)
    ensures r >= 1
  {
    if n == 0 then 1 else 256 * Power256(n - 1)
  }

  /** The number whose bytes, lowest first, are the parts. */
  function Denoted(parts: seq<int>): int {
    if parts == [] then 0 else parts[0] + 256 * Denoted(parts[1..])
  }

  /** All parts but the last are bytes, and the last is not negative. */
  predicate Bytes(parts: seq<int>) {
    forall k :: 0 <= k < |parts| ==> 0 <= parts[k] && (k < |parts| - 1 ==> parts[k] < 256)
  }

  /** The number a string of digits denotes. */
  function Value(base: nat, digits: seq<int>): int {
    if digits == [] then 0 else Value(base, digits[..|digits| - 1]) * base + digits[|digits| - 1]
  }

  /** The parts from one that holds x, carry and all, when the others are still to be multiplied. */
  function Carried(x: int, rest: seq<int>, base: nat): seq<int>
    decreases |rest|
  {
    if rest == [] then [x] else [x % 256] + Carried(rest[0] * base + x / 256, rest[1..], base)
  }

  lemma {:induction false} CarriedIs(x: int, rest: seq<int>, base: nat)
    requires Bytes(rest) && x >= 0
    ensures |Carried(x, rest, base)| == 1 + |rest| && Bytes(Carried(x, rest, base))
    ensures Denoted(Carried(x, rest, base)) == x + 256 * (Denoted(rest) * base)
    decreases |rest|
  {
    var r := Carried(x, rest, base);
    if rest == [] {
      assert r[1..] == [];
    } else {
      var y := rest[0] * base + x / 256;
      assert rest[0] * base >= 0;
      CarriedIs(y, rest[1..], base);
      assert r[1..] == Carried(y, rest[1..], base);
      CarrySum(rest[0], Denoted(rest[1..]), base);
    }
  }

  lemma {:induction false} CarrySum(p: int, d: int, base: nat)
    ensures (p + 256 * d) * base == p * base + 256 * (d * base)
  {
  }

  /** The loop over the parts for one digit: the number denoted is multiplied and the digit added. */
  method AddDigit(parts: array<int>, base: nat, c: nat)
    requires parts.Length >= 1 && Bytes(parts[..])
    modifies parts
    ensures Bytes(parts[..]) && Denoted(parts[..]) == Denoted(old(parts[..])) * base + c
  {
    ghost var was := parts[..];
    var count := 0;
    while count < parts.Length
      invariant 0 <= count <= parts.Length
      invariant forall k :: count <= k < parts.Length ==> parts[k] == was[k]
      invariant count > 0 ==> Halfway(was, parts[..], count, base, c)
    {
      ghost var before := parts[..];
      parts[count] := parts[count] * base;
      if count > 0 {
        parts[count] := parts[count] + parts[count - 1] / 256;
        parts[count - 1] := parts[count - 1] % 256;
        CarryOn(was, before, parts[..], count, base, c);
      } else {
        parts[0] := parts[0] + c;
        assert parts[..][..0] + Carried(parts[0], was[1..], base) == Carried(was[0] * base + c, was[1..], base);
      }
      count := count + 1;
    }
    AllCarried(was, parts[..], base, c);
  }

  /** The parts below count - 1 are final, the one at count - 1 still holds its carry. */
  predicate Halfway(was: seq<int>, now: seq<int>, count: nat, base: nat, c: nat) {
    && 1 <= count <= |was| == |now|
    && now[..count - 1] + Carried(now[count - 1], was[count..], base) == Carried(was[0] * base + c, was[1..], base)
  }

  lemma {:induction false} CarryOn(was: seq<int>, before: seq<int>, now: seq<int>, count: nat, base: nat, c: nat)
    requires Halfway(was, before, count, base, c) && count < |was|
    requires now == before[count := was[count] * base + before[count - 1] / 256][count - 1 := before[count - 1] % 256]
    ensures Halfway(was, now, count + 1, base, c)
  {
    var x, rest := before[count - 1], was[count..];
    assert rest[0] == was[count] && rest[1..] == was[count + 1..];
    assert Carried(x, rest, base) == [x % 256] + Carried(was[count] * base + x / 256, was[count + 1..], base);
    assert now[..count] == before[..count - 1] + [x % 256];
    hide Carried;
    var y := Carried(now[count], was[count + 1..], base);
    assert before[..count - 1] + ([x % 256] + y) == (before[..count - 1] + [x % 256]) + y;
  }

  lemma {:induction false} AllCarried(was: seq<int>, now: seq<int>, base: nat, c: nat)
    requires |was| >= 1 && Bytes(was) && Halfway(was, now, |was|, base, c)
    ensures Bytes(now) && Denoted(now) == Denoted(was) * base + c
  {
    assert was[|was|..] == [] && now[..|was| - 1] + [now[|was| - 1]] == now;
    assert was[0] * base >= 0;
    BytesTail(was);
    CarriedIs(was[0] * base + c, was[1..], base);
    CarrySum(was[0], Denoted(was[1..]), base);
  }

  lemma {:induction false} BytesTail(parts: seq<int>)
    requires Bytes(parts) && parts != []
    ensures Bytes(parts[1..])
  {
  }

  // ----- How big the number is -----

  lemma {:induction false} DenotedNonnegative(parts: seq<int>)
    requires Bytes(parts)
    ensures Denoted(parts) >= 0
  {
    if parts != [] {
      DenotedNonnegative(parts[1..]);
    }
  }

  /** The parts from k on are all zero exactly when the number is below 256^k. */
  lemma {:induction false} SmallIff(parts: seq<int>, k: nat)
    requires Bytes(parts) && k < |parts|
    ensures Denoted(parts) < Power256(k) <==> forall j :: k <= j < |parts| ==> parts[j] == 0
  {
    var rest := parts[1..];
    DenotedNonnegative(rest);
    assert forall j :: 1 <= j < |parts| ==> parts[j] == rest[j - 1];
    if k > 0 {
      SmallIff(rest, k - 1);
      assert forall j :: k - 1 <= j < |rest| ==> rest[j] == parts[j + 1];
    } else if |parts| > 1 {
      SmallIff(rest, 0);
    }
  }

  // ----- The parts of a constant -----

  /** A digit array for two words of w bytes each, and two parts more. */
  function PartCount(w: nat): nat {
    2 * w + 2
  }

  /** The parts and the overflow flag after a string of digits: the parts denote the number, and the
      flag is set exactly when the extra part was needed. */
  method ReadDigits(base: nat, digits: seq<nat>, parts: array<int>, w: nat) returns (overflow: bool)
    requires base >= 1 && parts.Length == PartCount(w) && forall k :: 0 <= k < parts.Length ==> parts[k] == 0
    modifies parts
    ensures Bytes(parts[..]) && Denoted(parts[..]) == Value(base, digits)
    ensures overflow <==> Value(base, digits) >= Power256(PartCount(w) - 1)
  {
    overflow := false;
    ZeroParts(parts[..]);
    PowerAtLeast(PartCount(w) - 1);
    for i := 0 to |digits|
      invariant Bytes(parts[..]) && Denoted(parts[..]) == Value(base, digits[..i]) >= 0
      invariant overflow <==> Value(base, digits[..i]) >= Power256(PartCount(w) - 1)
    {
      AddDigit(parts, base, digits[i]);
      assert digits[..i + 1][..i] == digits[..i];
      Grown(Value(base, digits[..i]), base, digits[i]);
      SmallIff(parts[..], PartCount(w) - 1);
      if parts[parts.Length - 1] != 0 {
        overflow := true;
      }
    }
    assert digits[..|digits|] == digits;
  }

  lemma {:induction false} Grown(v: int, base: nat, d: nat)
    requires v >= 0 && base >= 1
    ensures v * base + d >= v
  {
    assert v * base >= v;
  }

  lemma {:induction false} PowerAtLeast(n: nat)
    ensures Power256(n) > 0
  {
  }

  lemma {:induction false} ZeroParts(parts: seq<int>)
    requires forall k :: 0 <= k < |parts| ==> parts[k] == 0
    ensures Bytes(parts) && Denoted(parts) == 0
  {
    if parts != [] {
      ZeroParts(parts[1..]);
    }
  }

  /** The range warning: some part beyond the bytes of the widest type asked for is in use. */
  method OutOfRange(parts: array<int>, overflow: bool, bytes: nat, w: nat, ghost v: int) returns (warn: bool)
    requires parts.Length == PartCount(w) && bytes <= 2 * w && Bytes(parts[..]) && Denoted(parts[..]) == v
    requires overflow <==> v >= Power256(PartCount(w) - 1)
    ensures warn <==> v >= Power256(bytes)
  {
    warn := overflow;
    var i := bytes;
    while i < parts.Length
      invariant bytes <= i <= parts.Length
      invariant warn <==> overflow || exists j :: bytes <= j < i && parts[j] != 0
    {
      if parts[i] != 0 {
        warn := true;
      }
      i := i + 1;
    }
    SmallIff(parts[..], bytes);
    PowerGrows(bytes, PartCount(w) - 1);
    assert forall j :: bytes <= j < parts.Length ==> parts[..][j] == parts[j];
  }

  lemma {:induction false} PowerGrows(a: nat, b: nat)
    requires a <= b
    ensures Power256(a) <= Power256(b)
  {
    if a < b {
      PowerGrows(a, b - 1);
    }
  }

  // ----- The two words -----

  /** The number of the first n parts. */
  lemma {:induction false} DenotedSplit(parts: seq<int>, n: nat)
    requires n <= |parts|
    ensures Denoted(parts) == Denoted(parts[..n]) + Power256(n) * Denoted(parts[n..])
  {
    if n == 0 {
      assert parts[..0] == [] && parts[0..] == parts;
    } else {
      var rest := parts[1..];
      DenotedSplit(rest, n - 1);
      assert parts[..n][1..] == rest[..n - 1] && parts[n..] == rest[n - 1..];
      assert 256 * (Power256(n - 1) * Denoted(parts[n..])) == Power256(n) * Denoted(parts[n..]);
    }
  }

  lemma {:induction false} WordBelow(parts: seq<int>, n: nat)
    requires |parts| == n && forall k :: 0 <= k < n ==> 0 <= parts[k] < 256
    ensures 0 <= Denoted(parts) < Power256(n)
  {
    if n > 0 {
      WordBelow(parts[1..], n - 1);
    }
  }

  /** The high and low words made of the parts hold the number modulo two words. */
  method Words(parts: array<int>, w: nat, ghost v: int) returns (high: int, low: int)
    requires parts.Length == PartCount(w) && Bytes(parts[..]) && Denoted(parts[..]) == v
    ensures 0 <= high < Power256(w) && 0 <= low < Power256(w)
    ensures (high * Power256(w) + low) == v % (Power256(w) * Power256(w))
  {
    high, low := 0, 0;
    assert parts[..][..0] == [] && parts[..][w..w] == [];
    for i := 0 to w
      invariant low == Denoted(parts[..][..i]) && high == Denoted(parts[..][w..w + i])
    {
      AppendPart(parts[..][..i], parts[i]);
      AppendPart(parts[..][w..w + i], parts[i + w]);
      assert parts[..][..i + 1] == parts[..][..i] + [parts[i]];
      assert parts[..][w..w + i + 1] == parts[..][w..w + i] + [parts[i + w]];
      high := high + parts[i + w] * Power256(i);
      low := low + parts[i] * Power256(i);
    }
    WordBelow(parts[..][..w], w);
    WordBelow(parts[..][w..w + w], w);
    DenotedSplit(parts[..], w);
    DenotedSplit(parts[..][w..], w);
    assert parts[..][w..][..w] == parts[..][w..w + w];
    TwoWords(v, low, high, Denoted(parts[..][w..][w..]), Power256(w));
  }

  lemma {:induction false} AppendPart(a: seq<int>, x: int)
    ensures Denoted(a + [x]) == Denoted(a) + x * Power256(|a|)
  {
    if a == [] {
      assert [x][1..] == [];
    } else {
      assert (a + [x])[1..] == a[1..] + [x];
      AppendPart(a[1..], x);
      assert 256 * (x * Power256(|a| - 1)) == x * Power256(|a|);
    }
  }

  lemma {:induction false} TwoWords(v: int, low: int, high: int, rest: int, m: int)
    requires m >= 1 && 0 <= low < m && 0 <= high < m && v == low + m * (high + m * rest)
    ensures high * m + low == v % (m * m)
  {
    hide *;
    Expand(m, high, rest);
    ProductBelow(m, low, high);
    ModUnique(v, m * m, rest, high * m + low);
  }

  lemma {:induction false} Expand(m: int, high: int, rest: int)
    ensures m * (high + m * rest) == rest * (m * m) + high * m
  {
    assert m * (m * rest) == rest * (m * m);
  }

  lemma {:induction false} ProductBelow(m: int, low: int, high: int)
    requires m >= 1 && 0 <= low < m && 0 <= high < m
    ensures 0 <= high * m + low < m * m
  {
    assert high * m <= (m - 1) * m;
    assert (m - 1) * m == m * m - m;
  }

  // ----- The type -----

  datatype ConstantType = Int | UnsignedInt | LongInt | UnsignedLong | LongLong | UnsignedLongLong

  /** Widths of the types, none wider than the two words. */
  datatype Widths = Widths(int_: nat, long: nat, longLong: nat, words: nat)

  predicate WidthsOk(t: Widths) {
    1 <= t.int_ <= t.long <= t.longLong <= t.words
  }

  function Greatest(t: Widths, c: ConstantType): int
    requires WidthsOk(t)
  {
    match c
    case Int => Pow2(t.int_ - 1) - 1
    case UnsignedInt => Pow2(t.int_) - 1
    case LongInt => Pow2(t.long - 1) - 1
    case UnsignedLong => Pow2(t.long) - 1
    case LongLong => Pow2(t.longLong - 1) - 1
    case UnsignedLongLong => Pow2(t.longLong) - 1
  }

  /** int_fits_type_p */
  predicate FitsType(t: Widths, v: int, c: ConstantType)
    requires WidthsOk(t)
  {
    v <= Greatest(t, c)
  }

  /** The width and sign of each type. */
  function WidthOf(t: Widths, c: ConstantType): nat {
    match c
    case Int => t.int_
    case UnsignedInt => t.int_
    case LongInt => t.long
    case UnsignedLong => t.long
    case LongLong => t.longLong
    case UnsignedLongLong => t.longLong
  }

  predicate IsUnsigned(c: ConstantType) {
    c.UnsignedInt? || c.UnsignedLong? || c.UnsignedLongLong?
  }

  /** The value is in the range of the type. */
  predicate CanHold(t: Widths, c: ConstantType, v: int) {
    Fits(WidthOf(t, c), IsUnsigned(c), v)
  }

  /** int_fits_type_p says so of every value that is not negative. */
  lemma {:induction false} FitsTypeIs(t: Widths, v: int)
    requires WidthsOk(t) && v >= 0
    ensures forall c :: FitsType(t, v, c) <==> CanHold(t, c, v)
  {
  }

  /** The ANSI type of a constant whose two words hold v, by its base and suffixes. */
  function AnsiType(t: Widths, v: int, base: nat, uns: bool, long: bool, longLong: bool): ConstantType
    requires WidthsOk(t)
  {
    if !long && !uns && FitsType(t, v, Int) then Int
    else if !long && (base != 10 || uns) && FitsType(t, v, UnsignedInt) then UnsignedInt
    else if !uns && !longLong && FitsType(t, v, LongInt) then LongInt
    else if !longLong then UnsignedLong
    else if !uns && v < Pow2(t.words - 1) && FitsType(t, v, LongLong) then LongLong
    else UnsignedLongLong
  }

  /** The list of types tried for each kind of constant. */
  function Candidates(base: nat, uns: bool, long: bool, longLong: bool): seq<ConstantType> {
    if longLong then if uns then [UnsignedLongLong] else [LongLong, UnsignedLongLong]
    else if uns && long then [UnsignedLong]
    else if uns then [UnsignedInt, UnsignedLong]
    else if long then [LongInt, UnsignedLong]
    else if base == 10 then [Int, LongInt, UnsignedLong]
    else [Int, UnsignedInt, LongInt, UnsignedLong]
  }

  /** The type is the first of the list that can hold the value, and the last if none can. */
  lemma {:induction false} AnsiTypeIsFirst(t: Widths, v: int, base: nat, uns: bool, long: bool, longLong: bool)
    requires WidthsOk(t) && v >= 0 && (longLong ==> long)
    ensures var c := Candidates(base, uns, long, longLong);
      exists k :: 0 <= k < |c| && AnsiType(t, v, base, uns, long, longLong) == c[k]
        && (CanHold(t, c[k], v) || k == |c| - 1) && forall j :: 0 <= j < k ==> !CanHold(t, c[j], v)
  {
    FitsTypeIs(t, v);
    hide CanHold;
    var c := Candidates(base, uns, long, longLong);
    var a := AnsiType(t, v, base, uns, long, longLong);
    NestedRanges(t);
    hide Pow2;
    var k := if a == c[0] then 0 else if a == c[1] then 1 else if a == c[2] then 2 else 3;
    assert a == c[k];
    assert FitsType(t, v, c[k]) || k == |c| - 1;
    forall j | 0 <= j < k ensures !FitsType(t, v, c[j]) {
      assert j == 0 || j == 1 || j == 2;
    }
    hide AnsiType, FitsType, Candidates;
  }

  lemma {:induction false} NestedRanges(t: Widths)
    requires WidthsOk(t)
    ensures Pow2(t.longLong - 1) <= Pow2(t.words - 1)
  {
    Pow2Mono(t.longLong - 1, t.words - 1);
  }

  lemma {:induction false} PowerOfBytes(n: nat)
    ensures Power256(n) == Pow2(8 * n)
  {
    if n > 0 {
      PowerOfBytes(n - 1);
      Pow2Add(8, 8 * (n - 1));
      assert Pow2(8) == 256 by {
        assert Pow2(2) == 4 && Pow2(4) == 16 && Pow2(6) == 64;
      }
    }
  }

  /** A constant in range, or a warning. The types are whole bytes, and the words two of w bytes. */
  method LexConstant(t: Widths, w: nat, base: nat, digits: seq<nat>, uns: bool, long: bool, longLong: bool)
    returns (high: int, low: int, ansi: ConstantType, warn: bool)
    requires WidthsOk(t) && t.words == 8 * (2 * w) && t.long % 8 == 0 && t.longLong % 8 == 0 && base >= 1 && (longLong ==> long)
    ensures warn <==> Value(base, digits) >= Pow2(if longLong then t.longLong else t.long)
    ensures high * Power256(w) + low == Value(base, digits) % (Power256(w) * Power256(w))
    ensures !warn ==>
      var v, c := Value(base, digits), Candidates(base, uns, long, longLong);
      && high * Power256(w) + low == v && CanHold(t, ansi, v)
      && exists k :: 0 <= k < |c| && c[k] == ansi && forall j :: 0 <= j < k ==> !CanHold(t, c[j], v)
  {
    var parts := new int[PartCount(w)](_ => 0);
    var overflow := ReadDigits(base, digits, parts, w);
    ghost var v := Value(base, digits);
    DenotedNonnegative(parts[..]);
    var bytes := (if longLong then t.longLong else t.long) / 8;
    PowerOfBytes(bytes);
    warn := OutOfRange(parts, overflow, bytes, w, v);
    high, low := Words(parts, w, v);
    var value := high * Power256(w) + low;
    ansi := AnsiType(t, value, base, uns, long, longLong);
    if v < Power256(bytes) {
      InTwoWords(v, bytes, w);
      AnsiTypeIsFirst(t, v, base, uns, long, longLong);
      LastHolds(t, v, base, uns, long, longLong);
    }
  }

  lemma {:induction false} InTwoWords(v: int, bytes: nat, w: nat)
    requires 0 <= v < Power256(bytes) && bytes <= 2 * w
    ensures v % (Power256(w) * Power256(w)) == v
  {
    PowerGrows(bytes, 2 * w);
    PowerOfBytes(w);
    PowerOfBytes(2 * w);
    Pow2Add(8 * w, 8 * w);
    ModUnique(v, Power256(w) * Power256(w), 0, v);
  }

  lemma {:induction false} LastHolds(t: Widths, v: int, base: nat, uns: bool, long: bool, longLong: bool)
    requires WidthsOk(t) && 0 <= v < Pow2(if longLong then t.longLong else t.long)
    ensures var c := Candidates(base, uns, long, longLong); CanHold(t, c[|c| - 1], v)
  {
    FitsTypeIs(t, v);
  }
}
