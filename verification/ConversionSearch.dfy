/** The search for a chain of conversions between two typecodes (bc-optab.c). */
module ConversionSearch {
  import opened FiniteSets

  /** What is known of the typecodes, which are numbered below `count`. */
  datatype Types = Types(count: nat, integer: nat -> bool, float: nat -> bool, signed: nat -> bool, unsigned: nat -> bool, size: nat -> nat)

  /** An entry of conversion_info; the opcode is NO_OPCODE for a conversion that needs no code. */
  datatype Conversion = Conversion(opcode: int, from: nat, to: nat, cost: nat)

  datatype Link = Link(opcode: int, to: nat, cost: nat)

  /** The last conversion first. */
  type Chain = seq<Link>

  const NO_OPCODE := -1

  const BIG_ARBITRARY_NUMBER := 100000

  // ----- Reasonable chains -----

  datatype StepKind = IntFloat | FloatInt | SignExtend | ZeroExtend | SignedUnsigned | UnsignedSigned

  predicate IsStep(t: Types, kind: StepKind, a: nat, b: nat) {
    match kind
    case IntFloat => t.integer(a) && t.float(b)
    case FloatInt => t.float(a) && t.integer(b)
    case SignExtend => t.signed(a) && t.signed(b) && t.size(a) < t.size(b)
    case ZeroExtend => t.unsigned(a) && t.unsigned(b) && t.size(a) < t.size(b)
    case SignedUnsigned => t.signed(a) && t.unsigned(b)
    case UnsignedSigned => t.unsigned(a) && t.signed(b)
  }

  /** Some step of the chain, from the k-th typecode back to the one before, is of the kind. */
  predicate HasStep(t: Types, kind: StepKind, list: Chain, n: int) {
    exists k :: 0 <= k < n && k < |list| - 1 && IsStep(t, kind, list[k + 1].to, list[k].to)
  }

  predicate HasOrIs(t: Types, kind: StepKind, c: Conversion, list: Chain) {
    IsStep(t, kind, c.from, c.to) || HasStep(t, kind, list, |list|)
  }

  predicate Occurs(to: nat, list: Chain) {
    exists k :: 0 <= k < |list| && list[k].to == to
  }

  predicate Widens(t: Types, c: Conversion) {
    t.integer(c.from) && t.integer(c.to) && t.size(c.to) > t.size(c.from)
  }

  predicate Descends(sizes: seq<nat>) {
    forall k :: 0 < k < |sizes| ==> sizes[k] <= sizes[k - 1]
  }

  predicate Ascends(sizes: seq<nat>) {
    forall k :: 0 < k < |sizes| ==> sizes[k] >= sizes[k - 1]
  }

  function Sizes(t: Types, list: Chain): seq<nat> {
    if list == [] then [] else [t.size(list[0].to)] + Sizes(t, list[1..])
  }

  /** No typecode appears twice; conversions between integer and float go one way only; extensions
      are all of one kind; nothing is widened after a change of signedness; and the sizes never turn. */
  predicate Reasonable(t: Types, c: Conversion, list: Chain) {
    && !Occurs(c.to, list)
    && !(HasOrIs(t, IntFloat, c, list) && HasOrIs(t, FloatInt, c, list))
    && !(HasOrIs(t, SignExtend, c, list) && HasOrIs(t, ZeroExtend, c, list))
    && !(Widens(t, c) && (HasStep(t, SignedUnsigned, list, |list|) || HasStep(t, UnsignedSigned, list, |list|)))
    && (Descends([t.size(c.to)] + Sizes(t, list)) || Ascends([t.size(c.to)] + Sizes(t, list)))
  }

  lemma {:induction false} HasStepMore(t: Types, kind: StepKind, list: Chain, k: nat)
    requires k < |list| - 1
    ensures HasStep(t, kind, list, k + 1) <==> HasStep(t, kind, list, k) || IsStep(t, kind, list[k + 1].to, list[k].to)
  {
  }

  lemma {:induction false} SizesAt(t: Types, list: Chain)
    ensures |Sizes(t, list)| == |list| && forall k :: 0 <= k < |list| ==> Sizes(t, list)[k] == t.size(list[k].to)
  {
    if list != [] {
      SizesAt(t, list[1..]);
    }
  }

  /** One of the six flags of the source, kept while the chain is walked. */
  predicate FlagIs(t: Types, kind: StepKind, list: Chain, k: int, first: bool, flag: bool) {
    flag <==> first || HasStep(t, kind, list, k)
  }

  method Occurring(to: nat, list: Chain) returns (b: bool)
    ensures b <==> Occurs(to, list)
  {
    var k := 0;
    while k < |list|
      invariant k <= |list| && forall j :: 0 <= j < k ==> list[j].to != to
    {
      if list[k].to == to {
        return true;
      }
      k := k + 1;
    }
    b := false;
  }

  /** The flags of conversion_reasonable_p. */
  datatype Flags = Flags(intFloat: bool, floatInt: bool, signExtend: bool, zeroExtend: bool, signedUnsigned: bool, unsignedSigned: bool)

  function FlagOf(f: Flags, kind: StepKind): bool {
    match kind
    case IntFloat => f.intFloat
    case FloatInt => f.floatInt
    case SignExtend => f.signExtend
    case ZeroExtend => f.zeroExtend
    case SignedUnsigned => f.signedUnsigned
    case UnsignedSigned => f.unsignedSigned
  }

  ghost predicate FlagsAre(t: Types, list: Chain, k: int, first: Flags, f: Flags) {
    forall kind: StepKind :: FlagIs(t, kind, list, k, FlagOf(first, kind), FlagOf(f, kind))
  }

  function StepFlags(t: Types, a: nat, b: nat, f: Flags): Flags {
    Flags(f.intFloat || IsStep(t, IntFloat, a, b), f.floatInt || IsStep(t, FloatInt, a, b),
          f.signExtend || IsStep(t, SignExtend, a, b), f.zeroExtend || IsStep(t, ZeroExtend, a, b),
          f.signedUnsigned || IsStep(t, SignedUnsigned, a, b), f.unsignedSigned || IsStep(t, UnsignedSigned, a, b))
  }

  lemma {:induction false} FlagStep(t: Types, kind: StepKind, list: Chain, k: nat, first: bool, flag: bool)
    requires k < |list| - 1 && FlagIs(t, kind, list, k, first, flag)
    ensures FlagIs(t, kind, list, k + 1, first, flag || IsStep(t, kind, list[k + 1].to, list[k].to))
  {
    HasStepMore(t, kind, list, k);
    hide HasStep, IsStep;
  }

  lemma {:induction false} FlagsStep(t: Types, list: Chain, k: nat, first: Flags, f: Flags)
    requires k < |list| - 1 && FlagsAre(t, list, k, first, f)
    ensures FlagsAre(t, list, k + 1, first, StepFlags(t, list[k + 1].to, list[k].to, f))
  {
    var g := StepFlags(t, list[k + 1].to, list[k].to, f);
    forall kind: StepKind ensures FlagIs(t, kind, list, k + 1, FlagOf(first, kind), FlagOf(g, kind)) {
      hide FlagIs, IsStep, HasStep;
      FlagStep(t, kind, list, k, FlagOf(first, kind), FlagOf(f, kind));
    }
  }

  lemma {:induction false} FlagsBegin(t: Types, list: Chain, first: Flags)
    ensures FlagsAre(t, list, 0, first, first)
  {
  }

  lemma {:induction false} FlagsEnd(t: Types, list: Chain, k: int, first: Flags, f: Flags)
    requires k >= |list| - 1 && FlagsAre(t, list, k, first, f)
    ensures FlagsAre(t, list, |list|, first, f)
  {
    forall kind: StepKind ensures HasStep(t, kind, list, k) <==> HasStep(t, kind, list, |list|) {
    }
    hide HasStep;
  }

  lemma {:induction false} FlagAt(t: Types, list: Chain, first: Flags, f: Flags, kind: StepKind)
    requires FlagsAre(t, list, |list|, first, f)
    ensures FlagOf(f, kind) <==> FlagOf(first, kind) || HasStep(t, kind, list, |list|)
  {
    assert FlagIs(t, kind, list, |list|, FlagOf(first, kind), FlagOf(f, kind));
    hide HasStep;
  }

  /** conversion_reasonable_p */
  method ConversionReasonable(t: Types, c: Conversion, list: Chain) returns (ok: bool)
    ensures ok <==> Reasonable(t, c, list)
  {
    var occurs := Occurring(c.to, list);
    if occurs {
      return false;
    }
    var first := StepFlags(t, c.from, c.to, Flags(false, false, false, false, false, false)).(signedUnsigned := false, unsignedSigned := false);
    var f := WalkChain(t, list, first);
    FlagAt(t, list, first, f, IntFloat);
    FlagAt(t, list, first, f, FloatInt);
    FlagAt(t, list, first, f, SignExtend);
    FlagAt(t, list, first, f, ZeroExtend);
    FlagAt(t, list, first, f, SignedUnsigned);
    FlagAt(t, list, first, f, UnsignedSigned);
    hide FlagsAre;
    hide Occurs, Descends, Ascends, Sizes, HasStep, Widens, IsStep;
    if Widens(t, c) && (f.signedUnsigned || f.unsignedSigned) {
      return false;
    }
    if (f.floatInt && f.intFloat) || (f.signExtend && f.zeroExtend) {
      return false;
    }
    ok := NeverTurns(t, c.to, list);
  }

  method WalkChain(t: Types, list: Chain, first: Flags) returns (f: Flags)
    ensures FlagsAre(t, list, |list|, first, f)
  {
    hide FlagsAre, IsStep;
    f := first;
    FlagsBegin(t, list, first);
    var k := 0;
    while k < |list| - 1
      invariant k >= 0 && FlagsAre(t, list, k, first, f)
    {
      FlagsStep(t, list, k, first, f);
      f := StepFlags(t, list[k + 1].to, list[k].to, f);
      k := k + 1;
    }
    FlagsEnd(t, list, k, first, f);
  }

  predicate GoesOn(s: seq<nat>, j: int, falls: bool)
    requires 0 < j < |s|
  {
    if falls then s[j] <= s[j - 1] else s[j] >= s[j - 1]
  }

  predicate OneWay(s: seq<nat>, k: nat, falls: bool) {
    forall j :: k < j < |s| ==> GoesOn(s, j, falls)
  }

  /** Once the sizes have changed they can only go on the same way. */
  lemma {:induction false} Turned(s: seq<nat>, k: nat)
    requires k + 1 < |s| && s[k + 1] != s[k] && forall j :: 0 <= j <= k ==> s[j] == s[0]
    ensures Descends(s) || Ascends(s) <==> OneWay(s, k + 1, s[k + 1] < s[k])
  {
    var falls := s[k + 1] < s[k];
    if OneWay(s, k + 1, falls) {
      forall j | 0 < j < |s| ensures if falls then s[j] <= s[j - 1] else s[j] >= s[j - 1] {
        assert j > k + 1 ==> GoesOn(s, j, falls);
      }
    }
  }

  lemma {:induction false} OneWayTail(x: nat, s: seq<nat>, k: nat, falls: bool)
    ensures OneWay([x] + s, k + 1, falls) <==> OneWay(s, k, falls)
  {
    var z := [x] + s;
    forall j | k < j < |s| ensures GoesOn(s, j, falls) <==> GoesOn(z, j + 1, falls) {
      assert z[j + 1] == s[j] && z[j] == s[j - 1];
    }
    hide GoesOn;
    if OneWay(s, k, falls) {
      forall j | k + 1 < j < |z| ensures GoesOn(z, j, falls) {
        assert GoesOn(s, j - 1, falls);
      }
    }
  }

  /** The sizes, from the new typecode back along the chain, only fall or only rise. */
  method NeverTurns(t: Types, to: nat, list: Chain) returns (ok: bool)
    ensures ok <==> Descends([t.size(to)] + Sizes(t, list)) || Ascends([t.size(to)] + Sizes(t, list))
  {
    ghost var s := [t.size(to)] + Sizes(t, list);
    SizesAt(t, list);
    var prev := t.size(to);
    var k := 0;
    while k < |list| && t.size(list[k].to) == prev
      invariant k <= |list| && forall j :: 0 <= j <= k ==> s[j] == prev
    {
      k := k + 1;
    }
    if k == |list| {
      return true;
    }
    assert s[k + 1] == t.size(list[k].to);
    Turned(s, k);
    OneWayTail(t.size(to), Sizes(t, list), k, s[k + 1] < s[k]);
    hide *;
    ok := KeepsOn(t, list, k, t.size(list[k].to) < prev);
  }

  /** From the k-th typecode back the sizes keep falling, or keep rising. */
  method KeepsOn(t: Types, list: Chain, k: nat, falls: bool) returns (ok: bool)
    requires k < |list|
    ensures ok <==> OneWay(Sizes(t, list), k, falls)
  {
    SizesAt(t, list);
    var prev, i := t.size(list[k].to), k;
    while i < |list|
      invariant k <= i <= |list| && prev == t.size(list[if i > k then i - 1 else k].to)
      invariant forall j :: k < j < i ==> GoesOn(Sizes(t, list), j, falls)
    {
      var size := t.size(list[i].to);
      assert i > k ==> (GoesOn(Sizes(t, list), i, falls) <==> if falls then size <= prev else size >= prev);
      if (falls && size > prev) || (!falls && size < prev) {
        return false;
      }
      prev := size;
      i := i + 1;
    }
    ok := true;
  }

  // ----- What a reasonable chain is like -----

  /** The typecodes a chain goes through, the first one first. */
  function Visited(list: Chain): seq<nat> {
    seq(|list|, k requires 0 <= k < |list| => list[|list| - 1 - k].to)
  }

  /** A conversion from the k-th typecode before to the k-th. */
  predicate IntToFloat(t: Types, codes: seq<nat>, k: nat)
    requires 0 < k < |codes|
  {
    t.integer(codes[k - 1]) && t.float(codes[k])
  }

  predicate FloatToInt(t: Types, codes: seq<nat>, k: nat)
    requires 0 < k < |codes|
  {
    t.float(codes[k - 1]) && t.integer(codes[k])
  }

  predicate SignExtension(t: Types, codes: seq<nat>, k: nat)
    requires 0 < k < |codes|
  {
    t.signed(codes[k - 1]) && t.signed(codes[k]) && t.size(codes[k - 1]) < t.size(codes[k])
  }

  predicate ZeroExtension(t: Types, codes: seq<nat>, k: nat)
    requires 0 < k < |codes|
  {
    t.unsigned(codes[k - 1]) && t.unsigned(codes[k]) && t.size(codes[k - 1]) < t.size(codes[k])
  }

  predicate SignChange(t: Types, codes: seq<nat>, k: nat)
    requires 0 < k < |codes|
  {
    (t.signed(codes[k - 1]) && t.unsigned(codes[k])) || (t.unsigned(codes[k - 1]) && t.signed(codes[k]))
  }

  predicate Widening(t: Types, codes: seq<nat>, k: nat)
    requires 0 < k < |codes|
  {
    t.integer(codes[k - 1]) && t.integer(codes[k]) && t.size(codes[k - 1]) < t.size(codes[k])
  }

  predicate Smaller(t: Types, codes: seq<nat>, k: nat)
    requires 0 < k < |codes|
  {
    t.size(codes[k - 1]) > t.size(codes[k])
  }

  predicate Bigger(t: Types, codes: seq<nat>, k: nat)
    requires 0 < k < |codes|
  {
    t.size(codes[k - 1]) < t.size(codes[k])
  }

  /** No typecode twice; no two conversions that cross between integer and float both ways, or extend
      by sign and by zeros; none that widens after one that changed signedness; and the sizes never
      both rise and fall. */
  ghost predicate Sensible(t: Types, codes: seq<nat>) {
    && (forall j, k :: 0 <= j < k < |codes| ==> codes[j] != codes[k])
    && (forall j, k :: 0 < j < |codes| && 0 < k < |codes| ==> !(IntToFloat(t, codes, j) && FloatToInt(t, codes, k)))
    && (forall j, k :: 0 < j < |codes| && 0 < k < |codes| ==> !(SignExtension(t, codes, j) && ZeroExtension(t, codes, k)))
    && (forall j, k :: 0 < j < k < |codes| ==> !(SignChange(t, codes, j) && Widening(t, codes, k)))
    && (forall j, k :: 0 < j < |codes| && 0 < k < |codes| ==> !(Smaller(t, codes, j) && Bigger(t, codes, k)))
  }

  /** Some step is of a kind. */
  predicate Has(t: Types, kind: StepKind, codes: seq<nat>) {
    exists k :: 0 < k < |codes| && IsStep(t, kind, codes[k - 1], codes[k])
  }

  lemma {:induction false} HasVisited(t: Types, kind: StepKind, list: Chain)
    ensures HasStep(t, kind, list, |list|) <==> Has(t, kind, Visited(list))
  {
    var v, n := Visited(list), |list|;
    if i :| 0 <= i < n && i < n - 1 && IsStep(t, kind, list[i + 1].to, list[i].to) {
      var k := n - 1 - i;
      assert v[k - 1] == list[i + 1].to && v[k] == list[i].to;
    }
    if k :| 0 < k < n && IsStep(t, kind, v[k - 1], v[k]) {
      var i := n - 1 - k;
      assert list[i + 1].to == v[k - 1] && list[i].to == v[k];
    }
  }

  lemma {:induction false} HasMore(t: Types, kind: StepKind, v: seq<nat>, to: nat)
    requires v != []
    ensures Has(t, kind, v + [to]) <==> Has(t, kind, v) || IsStep(t, kind, v[|v| - 1], to)
  {
    var w := v + [to];
    if k :| 0 < k < |w| && IsStep(t, kind, w[k - 1], w[k]) {
      assert k < |v| ==> IsStep(t, kind, v[k - 1], v[k]);
    }
    if k :| 0 < k < |v| && IsStep(t, kind, v[k - 1], v[k]) {
      assert IsStep(t, kind, w[k - 1], w[k]);
    }
    if IsStep(t, kind, v[|v| - 1], to) {
      assert IsStep(t, kind, w[|v| - 1], w[|v|]);
    }
  }

  /** The two kinds of step do not both occur. */
  lemma {:induction false} CrossesIs(t: Types, codes: seq<nat>)
    ensures !(Has(t, IntFloat, codes) && Has(t, FloatInt, codes)) <==>
      forall j, k :: 0 < j < |codes| && 0 < k < |codes| ==> !(IntToFloat(t, codes, j) && FloatToInt(t, codes, k))
    ensures !(Has(t, SignExtend, codes) && Has(t, ZeroExtend, codes)) <==>
      forall j, k :: 0 < j < |codes| && 0 < k < |codes| ==> !(SignExtension(t, codes, j) && ZeroExtension(t, codes, k))
  {
    forall k | 0 < k < |codes|
      ensures IntToFloat(t, codes, k) <==> IsStep(t, IntFloat, codes[k - 1], codes[k])
      ensures FloatToInt(t, codes, k) <==> IsStep(t, FloatInt, codes[k - 1], codes[k])
      ensures SignExtension(t, codes, k) <==> IsStep(t, SignExtend, codes[k - 1], codes[k])
      ensures ZeroExtension(t, codes, k) <==> IsStep(t, ZeroExtend, codes[k - 1], codes[k])
    {
    }
    hide IntToFloat, FloatToInt, SignExtension, ZeroExtension, IsStep;
  }

  /** Nothing is widened last after a change of signedness before. */
  lemma {:induction false} ChangesIs(t: Types, v: seq<nat>, to: nat)
    requires v != [] && forall j, k :: 0 < j < k < |v| ==> !(SignChange(t, v, j) && Widening(t, v, k))
    ensures var w := v + [to];
      !((t.integer(v[|v| - 1]) && t.integer(to) && t.size(to) > t.size(v[|v| - 1])) && (Has(t, SignedUnsigned, v) || Has(t, UnsignedSigned, v))) <==>
      forall j, k :: 0 < j < k < |w| ==> !(SignChange(t, w, j) && Widening(t, w, k))
  {
    var w, n := v + [to], |v|;
    forall k | 0 < k < n
      ensures SignChange(t, w, k) <==> IsStep(t, SignedUnsigned, v[k - 1], v[k]) || IsStep(t, UnsignedSigned, v[k - 1], v[k])
      ensures (SignChange(t, w, k) <==> SignChange(t, v, k)) && (Widening(t, w, k) <==> Widening(t, v, k))
    {
    }
    assert Widening(t, w, n) <==> t.integer(v[n - 1]) && t.integer(to) && t.size(to) > t.size(v[n - 1]);
    hide SignChange, Widening, IsStep;
  }

  lemma {:induction false} TurnsIs(t: Types, list: Chain, to: nat)
    requires list != []
    ensures var w, s := Visited(list) + [to], [t.size(to)] + Sizes(t, list);
      Descends(s) || Ascends(s) <==> forall j, k :: 0 < j < |w| && 0 < k < |w| ==> !(Smaller(t, w, j) && Bigger(t, w, k))
  {
    var w, s, n := Visited(list) + [to], [t.size(to)] + Sizes(t, list), |list|;
    SizesAt(t, list);
    forall k | 0 <= k <= n ensures s[k] == t.size(w[n - k]) {
    }
    forall j | 0 < j <= n ensures Smaller(t, w, j) <==> Rises(s, n - j + 1) {
    }
    forall j | 0 < j <= n ensures Bigger(t, w, j) <==> Falls(s, n - j + 1) {
    }
    hide Smaller, Bigger, Sizes, Rises, Falls;
    NeverBoth(s);
    forall k | 0 < k <= n ensures (Rises(s, k) <==> Smaller(t, w, n - k + 1)) && (Falls(s, k) <==> Bigger(t, w, n - k + 1)) {
    }
    if k, l :| 0 < k < |s| && 0 < l < |s| && Rises(s, k) && Falls(s, l) {
      assert Smaller(t, w, n - k + 1) && Bigger(t, w, n - l + 1);
    }
    if j, k :| 0 < j < |w| && 0 < k < |w| && Smaller(t, w, j) && Bigger(t, w, k) {
      assert Rises(s, n - j + 1) && Falls(s, n - k + 1);
    }
  }

  predicate Rises(s: seq<nat>, k: nat)
    requires 0 < k < |s|
  {
    s[k] > s[k - 1]
  }

  predicate Falls(s: seq<nat>, k: nat)
    requires 0 < k < |s|
  {
    s[k] < s[k - 1]
  }

  lemma {:induction false} NeverBoth(s: seq<nat>)
    ensures Descends(s) || Ascends(s) <==> forall k, l :: 0 < k < |s| && 0 < l < |s| ==> !(Rises(s, k) && Falls(s, l))
  {
    if !Descends(s) && !Ascends(s) {
      var k :| 0 < k < |s| && s[k] > s[k - 1];
      var l :| 0 < l < |s| && s[l] < s[l - 1];
      assert Rises(s, k) && Falls(s, l);
    } else if k, l :| 0 < k < |s| && 0 < l < |s| && Rises(s, k) && Falls(s, l) {
      assert s[k] > s[k - 1] && s[l] < s[l - 1];
    }
  }

  lemma {:induction false} DistinctIs(list: Chain, to: nat)
    requires forall j, k :: 0 <= j < k < |list| ==> Visited(list)[j] != Visited(list)[k]
    ensures var w := Visited(list) + [to];
      !Occurs(to, list) <==> forall j, k :: 0 <= j < k < |w| ==> w[j] != w[k]
  {
    var v, w, n := Visited(list), Visited(list) + [to], |list|;
    if Occurs(to, list) {
      var k :| 0 <= k < n && list[k].to == to;
      assert w[n - 1 - k] == to == w[n];
    } else {
      forall j, k | 0 <= j < k < |w| ensures w[j] != w[k] {
        if k == n {
          assert list[n - 1 - j].to == w[j];
        } else {
          assert v[j] != v[k];
        }
      }
    }
  }

  /** conversion_reasonable_p lets a chain grow exactly as long as it is sensible. */
  lemma {:induction false} ReasonableIs(t: Types, c: Conversion, list: Chain)
    requires list != [] && c.from == list[0].to && Sensible(t, Visited(list))
    ensures Reasonable(t, c, list) <==> Sensible(t, Visited(list) + [c.to])
  {
    var v, w := Visited(list), Visited(list) + [c.to];
    assert v[|v| - 1] == c.from;
    DistinctIs(list, c.to);
    CrossesIs(t, w);
    ChangesIs(t, v, c.to);
    TurnsIs(t, list, c.to);
    forall kind: StepKind ensures (HasOrIs(t, kind, c, list) <==> Has(t, kind, w)) && (HasStep(t, kind, list, |list|) <==> Has(t, kind, v)) {
      HasVisited(t, kind, list);
      HasMore(t, kind, v, c.to);
    }
    hide Has, HasStep, HasOrIs, Descends, Ascends, Occurs, Sizes, Visited, IsStep, Smaller, Bigger, SignChange, Widening,
         IntToFloat, FloatToInt, SignExtension, ZeroExtension;
  }

  // ----- Chains the table allows -----

  function Extended(c: Conversion, list: Chain): Chain {
    [Link(c.opcode, c.to, c.cost)] + list
  }

  predicate Follows(t: Types, c: Conversion, list: Chain) {
    list != [] && c.from == list[0].to && Reasonable(t, c, list)
  }

  function Start(from: nat): Chain {
    [Link(NO_OPCODE, from, 0)]
  }

  /** A chain from a typecode: each step is an entry of the table that was reasonable when added. */
  predicate Admissible(t: Types, table: seq<Conversion>, from: nat, list: Chain) {
    list == Start(from) ||
    (|list| > 1 && Admissible(t, table, from, list[1..]) && ExtendsBy(t, table, list[1..], list))
  }

  /** Every chain the table allows is sensible. */
  lemma {:induction false} AdmissibleSensible(t: Types, table: seq<Conversion>, from: nat, list: Chain)
    requires Admissible(t, table, from, list)
    ensures Sensible(t, Visited(list))
  {
    if list == Start(from) {
      assert |Visited(list)| == 1;
    } else {
      var rest := list[1..];
      AdmissibleSensible(t, table, from, rest);
      var e :| e in table && Follows(t, e, rest) && list == Extended(e, rest);
      ReasonableIs(t, e, rest);
      assert Reasonable(t, e, rest);
      hide Sensible, Reasonable, Admissible;
      assert Visited(list) == Visited(rest) + [e.to];
    }
  }

  predicate InTable(t: Types, table: seq<Conversion>) {
    forall i :: 0 <= i < |table| ==> table[i].from < t.count && table[i].to < t.count
  }

  predicate Distinct(list: Chain) {
    forall j, k :: 0 <= j < k < |list| ==> list[j].to != list[k].to
  }

  /** No typecode repeats in a chain, so none is longer than there are typecodes. */
  lemma {:induction false} AdmissibleDistinct(t: Types, table: seq<Conversion>, from: nat, list: Chain)
    requires Admissible(t, table, from, list) && InTable(t, table) && from < t.count
    ensures Distinct(list) && |list| <= t.count
    ensures forall k :: 0 <= k < |list| ==> list[k].to < t.count
  {
    if |list| > 1 {
      AdmissibleDistinct(t, table, from, list[1..]);
      var e :| e in table && Follows(t, e, list[1..]) && list == Extended(e, list[1..]);
      assert !Occurs(e.to, list[1..]);
      forall k | 0 < k < |list| ensures list[k].to != list[0].to && list[k].to < t.count {
        assert list[k] == list[1..][k - 1];
      }
      DistinctMore(list);
    }
    Pigeonhole(list, t.count);
  }

  lemma {:induction false} DistinctMore(list: Chain)
    requires list != [] && Distinct(list[1..]) && forall k :: 0 < k < |list| ==> list[k].to != list[0].to
    ensures Distinct(list)
  {
    forall j, k | 0 <= j < k < |list| ensures list[j].to != list[k].to {
      assert j > 0 ==> list[j] == list[1..][j - 1] && list[k] == list[1..][k - 1];
    }
  }

  function Codes(list: Chain): set<nat> {
    if list == [] then {} else {list[0].to} + Codes(list[1..])
  }

  function Below(n: nat): (s: set<nat>)
    ensures |s| == n && forall x: nat :: x in s <==> x < n
  {
    if n == 0 then {} else Below(n - 1) + {n - 1}
  }

  lemma {:induction false} CodesCount(list: Chain, n: nat)
    requires Distinct(list) && forall k :: 0 <= k < |list| ==> list[k].to < n
    ensures |Codes(list)| == |list| && forall x :: x in Codes(list) ==> x < n && Occurs(x, list)
  {
    if list != [] {
      var rest := list[1..];
      assert forall k :: 0 <= k < |rest| ==> rest[k] == list[k + 1];
      CodesCount(rest, n);
      assert !Occurs(list[0].to, rest);
      forall x | x in Codes(list) ensures x < n && Occurs(x, list) {
        if x in Codes(rest) {
          assert Occurs(x, rest);
        } else {
          assert list[0].to == x;
        }
      }
    }
  }

  lemma {:induction false} Pigeonhole(list: Chain, n: nat)
    requires Distinct(list) && forall k :: 0 <= k < |list| ==> list[k].to < n
    ensures |list| <= n
  {
    CodesCount(list, n);
    SubsetSize(Codes(list), Below(n));
  }

  // ----- The search -----

  predicate Succeeds(list: Chain, to: nat) {
    list != [] && list[0].to == to
  }

  /** The successes taken out of the pending chains, and the chains left: the walk steps past the
      chain after one it has taken out. */
  function Sift(pending: seq<Chain>, to: nat): (seq<Chain>, seq<Chain>) {
    if pending == [] then ([], [])
    else if Succeeds(pending[0], to) then
      if |pending| == 1 then (pending, [])
      else var r := Sift(pending[2..], to); ([pending[0]] + r.0, [pending[1]] + r.1)
    else var r := Sift(pending[1..], to); (r.0, [pending[0]] + r.1)
  }

  lemma {:induction false} SiftIs(pending: seq<Chain>, to: nat)
    ensures var r := Sift(pending, to);
      && (forall c :: c in r.0 ==> c in pending && Succeeds(c, to)) && (forall c :: c in r.1 ==> c in pending)
      && (forall c :: c in pending ==> c in r.1 || Succeeds(c, to))
      && ((exists c :: c in pending && Succeeds(c, to)) ==> r.0 != [])
    decreases |pending|
  {
    if pending != [] {
      if Succeeds(pending[0], to) {
        if |pending| > 1 {
          SiftIs(pending[2..], to);
          assert pending == [pending[0], pending[1]] + pending[2..];
        }
      } else {
        SiftIs(pending[1..], to);
        assert pending == [pending[0]] + pending[1..];
      }
    }
  }

  function Successes(pending: seq<Chain>, to: nat): nat {
    if pending == [] then 0 else Successes(pending[1..], to) + if Succeeds(pending[0], to) then 1 else 0
  }

  predicate BothSucceed(pending: seq<Chain>, to: nat, k: nat)
    requires 0 < k < |pending|
  {
    Succeeds(pending[k - 1], to) && Succeeds(pending[k], to)
  }

  predicate NoneAdjacent(pending: seq<Chain>, to: nat) {
    forall k :: 0 < k < |pending| ==> !BothSucceed(pending, to, k)
  }

  lemma {:induction false} NoneAdjacentTail(pending: seq<Chain>, to: nat)
    requires |pending| >= 2
    ensures NoneAdjacent(pending, to) <==> !(Succeeds(pending[0], to) && Succeeds(pending[1], to)) && NoneAdjacent(pending[1..], to)
  {
    var rest := pending[1..];
    if NoneAdjacent(pending, to) {
      assert !BothSucceed(pending, to, 1);
      forall k | 0 < k < |rest| ensures !BothSucceed(rest, to, k) {
        assert !BothSucceed(pending, to, k + 1);
      }
    } else {
      var k :| 0 < k < |pending| && BothSucceed(pending, to, k);
      if k > 1 {
        assert BothSucceed(rest, to, k - 1);
      }
    }
  }

  /** Every success of a round is taken out exactly when no two of them are next to each other. */
  lemma {:induction false} AllTakenIff(pending: seq<Chain>, to: nat)
    ensures |Sift(pending, to).0| <= Successes(pending, to)
    ensures |Sift(pending, to).0| == Successes(pending, to) <==> NoneAdjacent(pending, to)
    decreases |pending|
  {
    if |pending| >= 2 {
      NoneAdjacentTail(pending, to);
      AllTakenIff(pending[1..], to);
      if Succeeds(pending[0], to) {
        AllTakenIff(pending[2..], to);
        assert pending[1..][1..] == pending[2..];
        if |pending| >= 3 {
          NoneAdjacentTail(pending[1..], to);
        }
      }
    } else if |pending| == 1 {
      assert pending[1..] == [];
    }
  }

  method SiftSuccesses(pending: seq<Chain>, to: nat, good: seq<Chain>) returns (taken: seq<Chain>, left: seq<Chain>)
    ensures left == Sift(pending, to).1 && taken == Backwards(Sift(pending, to).0) + good
  {
    var rest := pending;
    left, taken := [], good;
    ghost var passed: seq<Chain> := [];
    SiftBegin(pending, to);
    assert Backwards(passed) + good == good;
    hide Sift, Sifting, Succeeds;
    while rest != []
      invariant Sifting(pending, to, passed, left, rest) && taken == Backwards(passed) + good
      decreases |rest|
    {
      SiftStep(pending, to, passed, left, rest);
      if Succeeds(rest[0], to) {
        taken := [rest[0]] + taken;
        BackwardsAdd(passed, rest[0]);
        passed := passed + [rest[0]];
        if |rest| > 1 {
          left := left + [rest[1]];
          rest := rest[2..];
        } else {
          rest := [];
        }
      } else {
        left := left + [rest[0]];
        rest := rest[1..];
      }
    }
    SiftDone(pending, to, passed, left);
  }

  /** What has been taken out and left so far, with what the rest will give, is the whole. */
  predicate Sifting(pending: seq<Chain>, to: nat, passed: seq<Chain>, left: seq<Chain>, rest: seq<Chain>) {
    Sift(pending, to) == (passed + Sift(rest, to).0, left + Sift(rest, to).1)
  }

  lemma {:induction false} SiftBegin(pending: seq<Chain>, to: nat)
    ensures Sifting(pending, to, [], [], pending)
  {
    var r := Sift(pending, to);
    assert [] + r.0 == r.0 && [] + r.1 == r.1;
  }

  lemma {:induction false} SiftStep(pending: seq<Chain>, to: nat, passed: seq<Chain>, left: seq<Chain>, rest: seq<Chain>)
    requires rest != [] && Sifting(pending, to, passed, left, rest)
    ensures Succeeds(rest[0], to) && |rest| > 1 ==> Sifting(pending, to, passed + [rest[0]], left + [rest[1]], rest[2..])
    ensures Succeeds(rest[0], to) && |rest| == 1 ==> Sifting(pending, to, passed + [rest[0]], left, [])
    ensures !Succeeds(rest[0], to) ==> Sifting(pending, to, passed, left + [rest[0]], rest[1..])
  {
    if Succeeds(rest[0], to) {
      if |rest| > 1 {
        var more := Sift(rest[2..], to);
        assert passed + ([rest[0]] + more.0) == passed + [rest[0]] + more.0;
        assert left + ([rest[1]] + more.1) == left + [rest[1]] + more.1;
      } else {
        assert rest == [rest[0]] && passed + rest == passed + [rest[0]] + [];
      }
    } else {
      var more := Sift(rest[1..], to);
      assert left + ([rest[0]] + more.1) == left + [rest[0]] + more.1;
    }
  }

  lemma {:induction false} SiftDone(pending: seq<Chain>, to: nat, passed: seq<Chain>, left: seq<Chain>)
    requires Sifting(pending, to, passed, left, [])
    ensures Sift(pending, to) == (passed, left)
  {
    assert passed + [] == passed && left + [] == left;
  }

  function Backwards(s: seq<Chain>): seq<Chain> {
    if s == [] then [] else Backwards(s[1..]) + [s[0]]
  }

  lemma {:induction false} BackwardsAdd(s: seq<Chain>, x: Chain)
    ensures Backwards(s + [x]) == [x] + Backwards(s)
  {
    if s != [] {
      assert (s + [x])[1..] == s[1..] + [x];
      BackwardsAdd(s[1..], x);
    }
  }

  lemma {:induction false} BackwardsSame(s: seq<Chain>)
    ensures |Backwards(s)| == |s| && forall c :: c in Backwards(s) <==> c in s
  {
    if s != [] {
      BackwardsSame(s[1..]);
    }
  }

  /** A chain extended by each of the first n conversions of the table that is reasonable for it,
      the last first. */
  function Extensions(t: Types, table: seq<Conversion>, list: Chain, n: nat): seq<Chain>
    requires n <= |table|
  {
    if n == 0 then []
    else (if Follows(t, table[n - 1], list) then [Extended(table[n - 1], list)] else []) + Extensions(t, table, list, n - 1)
  }

  function ExtendAll(t: Types, table: seq<Conversion>, pending: seq<Chain>, n: nat): seq<Chain>
    requires n <= |pending|
  {
    if n == 0 then [] else Extensions(t, table, pending[n - 1], |table|) + ExtendAll(t, table, pending, n - 1)
  }

  /** Every pending chain extended by every conversion that is reasonable for it. */
  method Extend(t: Types, table: seq<Conversion>, pending: seq<Chain>) returns (next: seq<Chain>)
    ensures next == ExtendAll(t, table, pending, |pending|)
  {
    next := [];
    hide Reasonable, Extensions;
    for k := 0 to |pending|
      invariant next == ExtendAll(t, table, pending, k)
    {
      next := ExtendOne(t, table, pending[k], next);
    }
  }

  /** One pending chain extended by every conversion reasonable for it, in front of those done. */
  method ExtendOne(t: Types, table: seq<Conversion>, list: Chain, done: seq<Chain>) returns (next: seq<Chain>)
    ensures next == Extensions(t, table, list, |table|) + done
  {
    next := done;
    hide Reasonable;
    assert Extensions(t, table, list, 0) == [];
    for i := 0 to |table|
      invariant next == Extensions(t, table, list, i) + done
    {
      OneExtension(t, table, list, i);
      hide Extensions;
      if list != [] && table[i].from == list[0].to {
        var ok := ConversionReasonable(t, table[i], list);
        if ok {
          Grouped(Extended(table[i], list), Extensions(t, table, list, i), done);
          next := [Extended(table[i], list)] + next;
        }
      }
    }
  }

  lemma {:induction false} OneExtension(t: Types, table: seq<Conversion>, list: Chain, n: nat)
    requires n < |table|
    ensures Extensions(t, table, list, n + 1) ==
      if Follows(t, table[n], list) then [Extended(table[n], list)] + Extensions(t, table, list, n) else Extensions(t, table, list, n)
  {
    hide Reasonable;
    assert [] + Extensions(t, table, list, n) == Extensions(t, table, list, n);
  }

  lemma {:induction false} Grouped(c: Chain, a: seq<Chain>, b: seq<Chain>)
    ensures [c] + (a + b) == ([c] + a) + b
  {
  }

  predicate ExtendsBy(t: Types, table: seq<Conversion>, list: Chain, c: Chain) {
    exists e :: e in table && Follows(t, e, list) && c == Extended(e, list)
  }

  predicate IsExtension(t: Types, table: seq<Conversion>, pending: seq<Chain>, c: Chain) {
    exists list :: list in pending && ExtendsBy(t, table, list, c)
  }

  lemma {:induction false} ExtensionsAre(t: Types, table: seq<Conversion>, list: Chain, n: nat, c: Chain)
    requires n <= |table|
    ensures c in Extensions(t, table, list, n) <==> ExtendsBy(t, table[..n], list, c)
  {
    if n > 0 {
      assert table[..n] == table[..n - 1] + [table[n - 1]];
      ExtensionsAre(t, table, list, n - 1, c);
    }
  }

  lemma {:induction false} ExtendAllIs(t: Types, table: seq<Conversion>, pending: seq<Chain>, n: nat, c: Chain)
    requires n <= |pending|
    ensures c in ExtendAll(t, table, pending, n) <==> IsExtension(t, table, pending[..n], c)
  {
    if n > 0 {
      assert pending[..n] == pending[..n - 1] + [pending[n - 1]] && table[..|table|] == table;
      ExtendAllIs(t, table, pending, n - 1, c);
      ExtensionsAre(t, table, pending[n - 1], |table|, c);
    }
  }
}
