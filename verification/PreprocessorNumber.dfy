/** parse_number (cexp.c): the integer constants of #if expressions. */
module PreprocessorNumber {
  import opened IntegerTypes

  /** What is made of the text of a number: a constant of `value`, or the error reported. */
  datatype Parsed =
    | FloatingPoint | TwoLongs | TwoUnsigneds | Invalid
    | Number(value: int, unsignedp: bool, overflow: bool, beyondRadix: bool)

  // ----- What a number means -----

  function Base(s: string): nat
    requires |s| >= 1
  {
    if |s| >= 3 && s[0] == '0' && (s[1] == 'x' || s[1] == 'X') then 16 else if s[0] == '0' then 8 else 10
  }

  function Body(s: string): string
    requires |s| >= 1
  {
    if Base(s) == 16 then s[2..] else s
  }

  /** The digits, each at its value. */
  const DECIMAL := "0123456789"
  const LOWER := "0123456789abcdef"
  const UPPER := "0123456789ABCDEF"

  function Digit(base: nat, c: char): (d: int)
    ensures -1 <= d < if base == 16 then 16 else 10
    ensures d >= 0 ==> if base == 16 then LOWER[d] == c || UPPER[d] == c else DECIMAL[d] == c
    ensures d < 0 ==> if base == 16 then c !in LOWER && c !in UPPER else c !in DECIMAL
  {
    if '0' <= c <= '9' then c as int - '0' as int
    else if base == 16 && 'a' <= c <= 'f' then c as int - 'a' as int + 10
    else if base == 16 && 'A' <= c <= 'F' then c as int - 'A' as int + 10
    else -1
  }

  /** How many digits a text begins with. */
  function DigitCount(base: nat, s: string): (n: nat)
    ensures n <= |s|
  {
    if s == [] || Digit(base, s[0]) < 0 then 0 else 1 + DigitCount(base, s[1..])
  }

  function Value(base: nat, digits: string): int {
    if digits == [] then 0 else Value(base, digits[..|digits| - 1]) * base + Digit(base, digits[|digits| - 1])
  }

  predicate Beyond(base: nat, digits: string) {
    exists k :: 0 <= k < |digits| && Digit(base, digits[k]) >= base
  }

  /** The error in a suffix, or a constant that is unsigned if it says so. */
  function Suffix(s: string, long: bool, uns: bool): Parsed {
    if s == [] then Number(0, uns, false, false)
    else if s[0] == 'l' || s[0] == 'L' then if long then TwoLongs else Suffix(s[1..], true, uns)
    else if s[0] == 'u' || s[0] == 'U' then if uns then TwoUnsigneds else Suffix(s[1..], long, true)
    else Invalid
  }

  /** The number the digits denote, in an unsigned long of the given width if it is too big for a
      long or says so; whether it is too big for any, and whether it has digits beyond the radix. */
  function Denoted(bits: nat, s: string): Parsed
    requires |s| >= 1
  {
    var base, body := Base(s), Body(s);
    var k := DigitCount(base, body);
    var digits, suffix := body[..k], Suffix(body[k..], false, false);
    if '.' in s then FloatingPoint
    else if !suffix.Number? then suffix
    else
      var v := Value(base, digits);
      Number(WrapTo(bits, false, v), suffix.unsignedp || WrapTo(bits, false, v) < 0, v >= Pow2(bits), Beyond(base, digits))
  }

  // ----- The sticky flag -----

  lemma {:induction false} Sixteenths(bits: nat)
    requires bits >= 8
    ensures Pow2(bits) == 16 * Pow2(bits - 4) && Pow2(bits - 4) >= 16
  {
    Pow2Add(4, bits - 4);
    Pow2Mono(4, bits - 4);
    assert Pow2(4) == 16 by {
      assert Pow2(1) == 2 && Pow2(2) == 4 && Pow2(3) == 8;
    }
  }

  /** One more digit: the two tests together notice exactly when the number leaves the range. */
  lemma {:induction false} StickyStep(bits: nat, base: nat, v: int, d: int)
    requires bits >= 8 && (base == 8 || base == 10 || base == 16) && v >= 0 && 0 <= d < 16 && (d >= 10 ==> base == 16)
    ensures var m := Pow2(bits);
      var n := Bits(bits, v);
      var nd := Bits(bits, n * base + d);
      && nd == Bits(bits, v * base + d)
      && (v >= m || (m - 1) / base < n || nd < n <==> v * base + d >= m)
  {
    var m := Pow2(bits);
    SameResidue(bits, base, v, d);
    Sixteenths(bits);
    Grows(base, v, d);
    if v < m {
      BitsOfFitting(bits, true, v);
      hide Bits, Pow2;
      BelowModulus(m, base, v, d);
      assert Bits(bits, v * base + d) == (v * base + d) % m by { BitsIs(bits, v * base + d); }
    }
  }

  lemma {:induction false} BitsIs(bits: nat, v: int)
    ensures Bits(bits, v) == v % Pow2(bits)
  {
  }

  lemma {:induction false} SameResidue(bits: nat, base: nat, v: int, d: int)
    ensures Bits(bits, Bits(bits, v) * base + d) == Bits(bits, v * base + d)
  {
    var n := Bits(bits, v);
    BitsCong(bits, v);
    CongMulLeft(bits, n, v, base);
    CongAdd(bits, n * base, v * base, d, d);
  }

  lemma {:induction false} BelowModulus(m: int, base: nat, v: int, d: int)
    requires m >= 256 && m % 16 == 0 && (base == 8 || base == 10 || base == 16) && 0 <= v < m && 0 <= d < 16 && (d >= 10 ==> base == 16)
    ensures (m - 1) / base < v || (v * base + d) % m < v <==> v * base + d >= m
  {
    NextDigit(m, base, v, d);
    Grows(base, v, d);
    Residue(v * base + d, m);
  }

  lemma {:induction false} Residue(z: int, m: int)
    requires m > 0 && z >= 0
    ensures z < m ==> z % m == z
    ensures m <= z < 2 * m ==> z % m == z - m
  {
    if z < m {
      ModUnique(z, m, 0, z);
    } else if z < 2 * m {
      ModUnique(z, m, 1, z - m);
    }
  }

  lemma {:induction false} Grows(base: nat, v: int, d: int)
    requires base >= 8 && v >= 0 && d >= 0
    ensures v * base + d >= v
  {
    assert v * base >= v;
  }

  lemma {:induction false} NextDigit(m: int, base: nat, v: int, d: int)
    requires m >= 256 && m % 16 == 0 && (base == 8 || base == 10 || base == 16) && 0 <= v < m && 0 <= d < 16 && (d >= 10 ==> base == 16)
    ensures (m - 1) / base < v ==> v * base + d >= m
    ensures (m - 1) / base >= v ==> v * base + d < 2 * m && (v * base + d >= m ==> v * base + d - m < v)
  {
    if base == 8 {
      assert (m - 1) / 8 < v ==> v * 8 >= m;
    } else if base == 10 {
      assert (m - 1) / 10 < v ==> v * 10 >= m;
    } else {
      assert (m - 1) / 16 < v ==> v * 16 >= m;
      assert m == 16 * (m / 16);
    }
  }

  // ----- The parser -----

  method ParseNumber(bits: nat, s: string) returns (r: Parsed)
    requires bits >= 8 && |s| >= 1
    ensures r == Denoted(bits, s)
  {
    if '.' in s {
      return FloatingPoint;
    }
    var base, p := 10, s;
    if |s| >= 3 && s[0] == '0' && (s[1] == 'x' || s[1] == 'X') {
      base, p := 16, s[2..];
    } else if s[0] == '0' {
      base := 8;
    }
    var n, overflow, beyond, rest := ReadDigits(bits, base, p);
    var suffix := ParseSuffix(rest);
    if !suffix.Number? {
      return suffix;
    }
    var v := Value(base, p[..DigitCount(base, p)]);
    hide *;
    BitsCong(bits, v);
    CongWrap(bits, false, n, v);
    var value := WrapTo(bits, false, n);
    r := Number(value, suffix.unsignedp || value < 0, overflow, beyond);
  }

  /** The digits a text begins with, in wrapping arithmetic. */
  method ReadDigits(bits: nat, base: nat, s: string) returns (n: int, overflow: bool, beyond: bool, p: string)
    requires bits >= 8 && (base == 8 || base == 10 || base == 16)
    ensures var digits := s[..DigitCount(base, s)];
      && n == Bits(bits, Value(base, digits)) && (overflow <==> Value(base, digits) >= Pow2(bits)) && (beyond <==> Beyond(base, digits))
    ensures p == s[DigitCount(base, s)..]
  {
    p := s;
    var maxOverBase := (Pow2(bits) - 1) / base;
    var largest := 0;
    n, overflow := 0, false;
    ghost var k := 0;
    NoneYet(bits, base, s);
    hide Bits, Value, Beyond;
    while p != [] && Digit(base, p[0]) >= 0
      invariant k <= |s| && p == s[k..] && DigitCount(base, s) == k + DigitCount(base, p)
      invariant Value(base, s[..k]) >= 0 && n == Bits(bits, Value(base, s[..k]))
      invariant overflow <==> Value(base, s[..k]) >= Pow2(bits)
      invariant largest >= base <==> Beyond(base, s[..k])
      decreases |p|
    {
      var digit := Digit(base, p[0]);
      if largest < digit {
        largest := digit;
      }
      StickyStep(bits, base, Value(base, s[..k]), digit);
      OneMore(base, s, k);
      Grows(base, Value(base, s[..k]), digit);
      var nd := Bits(bits, n * base + digit);
      overflow := overflow || maxOverBase < n || nd < n;
      n := nd;
      p := p[1..];
      k := k + 1;
    }
    beyond := base <= largest;
  }

  lemma {:induction false} NoneYet(bits: nat, base: nat, s: string)
    ensures Value(base, s[..0]) == 0 && Bits(bits, 0) == 0 && !Beyond(base, s[..0])
  {
    ModUnique(0, Pow2(bits), 0, 0);
  }

  lemma {:induction false} OneMore(base: nat, body: string, k: nat)
    requires k < |body|
    ensures Value(base, body[..k + 1]) == Value(base, body[..k]) * base + Digit(base, body[k])
    ensures Beyond(base, body[..k + 1]) <==> Beyond(base, body[..k]) || Digit(base, body[k]) >= base
  {
    var all := body[..k + 1];
    assert all[..k] == body[..k] && all[k] == body[k];
    assert forall j :: 0 <= j < k ==> all[j] == body[..k][j];
  }

  /** The letters after the digits. */
  method ParseSuffix(s: string) returns (r: Parsed)
    ensures r == Suffix(s, false, false)
  {
    var p, long, uns := s, false, false;
    while p != []
      invariant Suffix(p, long, uns) == Suffix(s, false, false)
      decreases |p|
    {
      if p[0] == 'l' || p[0] == 'L' {
        if long {
          return TwoLongs;
        }
        long := true;
      } else if p[0] == 'u' || p[0] == 'U' {
        if uns {
          return TwoUnsigneds;
        }
        uns := true;
      } else {
        return Invalid;
      }
      p := p[1..];
    }
    r := Number(0, uns, false, false);
  }

  // ----- The text of a number -----

  predicate InAlphabet(base: nat, c: char) {
    if base == 16 then c in LOWER || c in UPPER else c in DECIMAL
  }

  /** Sixteen after 0x or 0X, eight if the first digit is 0, else ten. */
  function BaseOf(prefix: string, digits: string): nat {
    if prefix != "" then 16 else if digits != "" && digits[0] == '0' then 8 else 10
  }

  predicate HexPrefix(s: string) {
    |s| >= 3 && s[0] == '0' && (s[1] == 'x' || s[1] == 'X')
  }

  /** A number is a prefix, the digits that follow it and the letters that follow them. */
  predicate Text(s: string, prefix: string, digits: string, letters: string) {
    var base := BaseOf(prefix, digits);
    && s == prefix + digits + letters && (if HexPrefix(s) then |prefix| == 2 else prefix == "")
    && (forall k :: 0 <= k < |digits| ==> InAlphabet(base, digits[k])) && (letters == "" || !InAlphabet(base, letters[0]))
  }

  lemma {:induction false} DigitsCounted(base: nat, digits: string, letters: string)
    requires forall k :: 0 <= k < |digits| ==> InAlphabet(base, digits[k])
    requires letters == "" || !InAlphabet(base, letters[0])
    ensures DigitCount(base, digits + letters) == |digits|
  {
    if digits == "" {
      assert digits + letters == letters;
      if letters != "" {
        NotADigit(base, letters[0]);
      }
    } else {
      assert (digits + letters)[1..] == digits[1..] + letters && (digits + letters)[0] == digits[0];
      assert InAlphabet(base, digits[0]);
      NotADigit(base, digits[0]);
      DigitsCounted(base, digits[1..], letters);
    }
  }

  lemma {:induction false} NotADigit(base: nat, c: char)
    ensures Digit(base, c) < 0 <==> !InAlphabet(base, c)
  {
  }

  /** Every text can be taken apart so. */
  lemma {:induction false} TextOf(s: string) returns (prefix: string, digits: string, letters: string)
    requires |s| >= 1
    ensures Text(s, prefix, digits, letters)
  {
    prefix := if HexPrefix(s) then s[..2] else "";
    var body := s[|prefix|..];
    var base := if HexPrefix(s) then 16 else 10;
    var n := DigitCount(base, body);
    digits, letters := body[..n], body[n..];
    DigitsTaken(base, body);
    SameAlphabet();
    assert s == prefix + digits + letters;
  }

  lemma {:induction false} SameAlphabet()
    ensures forall c: char :: InAlphabet(8, c) <==> InAlphabet(10, c)
  {
  }

  lemma {:induction false} DigitsTaken(base: nat, body: string)
    ensures var n := DigitCount(base, body);
      (forall k :: 0 <= k < n ==> InAlphabet(base, body[k])) && (n == |body| || !InAlphabet(base, body[n]))
  {
    if body != "" {
      NotADigit(base, body[0]);
      if Digit(base, body[0]) >= 0 {
        DigitsTaken(base, body[1..]);
        var n := DigitCount(base, body[1..]);
        assert forall k :: 0 < k < n + 1 ==> body[k] == body[1..][k - 1];
      }
    }
  }

  function Times(s: string, lower: char, upper: char): nat {
    if s == "" then 0 else (if s[0] == lower || s[0] == upper then 1 else 0) + Times(s[1..], lower, upper)
  }

  predicate Letters(s: string) {
    forall k :: 0 <= k < |s| ==> s[k] == 'l' || s[k] == 'L' || s[k] == 'u' || s[k] == 'U'
  }

  /** At most one l and one u, in either case and order. */
  predicate Plain(s: string) {
    Letters(s) && Times(s, 'l', 'L') <= 1 && Times(s, 'u', 'U') <= 1
  }

  predicate PlainAfter(s: string, long: bool, uns: bool) {
    Letters(s) && Times(s, 'l', 'L') <= (if long then 0 else 1) && Times(s, 'u', 'U') <= if uns then 0 else 1
  }

  lemma {:induction false} LettersUnfold(s: string)
    requires s != ""
    ensures Letters(s) <==> (s[0] == 'l' || s[0] == 'L' || s[0] == 'u' || s[0] == 'U') && Letters(s[1..])
  {
    assert forall k :: 0 < k < |s| ==> s[k] == s[1..][k - 1];
    assert forall k :: 0 <= k < |s[1..]| ==> s[1..][k] == s[k + 1];
  }

  lemma {:induction false} SuffixIs(s: string, long: bool, uns: bool)
    ensures Suffix(s, long, uns).Number? <==> PlainAfter(s, long, uns)
    ensures Suffix(s, long, uns).Number? ==> (Suffix(s, long, uns).unsignedp <==> uns || Times(s, 'u', 'U') >= 1)
  {
    if s != "" {
      LettersUnfold(s);
      SuffixIs(s[1..], true, uns);
      SuffixIs(s[1..], long, true);
    }
  }

  function ErrorAt(c: char): Parsed {
    if c == 'l' || c == 'L' then TwoLongs else if c == 'u' || c == 'U' then TwoUnsigneds else Invalid
  }

  /** The error is that of the first letter too many. */
  lemma {:induction false} SuffixError(s: string, long: bool, uns: bool, k: nat)
    requires k < |s| && PlainAfter(s[..k], long, uns) && !PlainAfter(s[..k + 1], long, uns)
    ensures Suffix(s, long, uns) == ErrorAt(s[k])
  {
    LettersUnfold(s[..k + 1]);
    if k == 0 {
      assert s[..1][1..] == "";
    } else {
      LettersUnfold(s[..k]);
      assert s[..k][1..] == s[1..][..k - 1] && s[..k + 1][1..] == s[1..][..k];
      var l, u := long || s[0] == 'l' || s[0] == 'L', uns || s[0] == 'u' || s[0] == 'U';
      SuffixError(s[1..], l, u, k - 1);
    }
  }

  lemma {:induction false} TextBase(s: string, prefix: string, digits: string, letters: string)
    requires |s| >= 1 && Text(s, prefix, digits, letters)
    ensures Base(s) == BaseOf(prefix, digits) && Body(s) == digits + letters
  {
    if HexPrefix(s) {
      assert s[2..] == digits + letters;
    } else {
      assert s == digits + letters;
    }
  }

  lemma {:induction false} BeyondIs(base: nat, digits: string)
    requires base == 8 || base == 10 || base == 16
    requires forall k :: 0 <= k < |digits| ==> InAlphabet(base, digits[k])
    ensures Beyond(base, digits) <==> base == 8 && ('8' in digits || '9' in digits)
  {
    forall k | 0 <= k < |digits| ensures Digit(base, digits[k]) >= base <==> base == 8 && (digits[k] == '8' || digits[k] == '9') {
      NotADigit(base, digits[k]);
      assert InAlphabet(base, digits[k]);
    }
  }

  /** What is made of a number: the value its digits denote in its base, modulo two to the width; too
      big, unsigned and beyond the radix as they say. */
  lemma {:induction false} NumberMeans(bits: nat, s: string, prefix: string, digits: string, letters: string)
    requires bits >= 8 && |s| >= 1 && Text(s, prefix, digits, letters)
    ensures '.' in s ==> Denoted(bits, s) == FloatingPoint
    ensures '.' !in s && !Plain(letters) ==> !Denoted(bits, s).Number? && Denoted(bits, s) == Suffix(letters, false, false)
    ensures '.' !in s && Plain(letters) ==>
      var r, v := Denoted(bits, s), Value(BaseOf(prefix, digits), digits);
      && r.Number? && Fits(bits, false, r.value) && Cong(bits, r.value, v)
      && (r.overflow <==> v >= Pow2(bits)) && (r.unsignedp <==> Times(letters, 'u', 'U') >= 1 || 2 * Bits(bits, v) >= Pow2(bits))
      && (r.beyondRadix <==> BaseOf(prefix, digits) == 8 && ('8' in digits || '9' in digits))
  {
    var base := BaseOf(prefix, digits);
    TextBase(s, prefix, digits, letters);
    DigitsCounted(base, digits, letters);
    assert (digits + letters)[..|digits|] == digits && (digits + letters)[|digits|..] == letters;
    SuffixIs(letters, false, false);
    BeyondIs(base, digits);
    var v := Value(base, digits);
    WrapFits(bits, false, v);
    WrapCong(bits, bits, false, v);
    hide Value, Digit, Suffix, Times, Letters, Beyond, Base, Body, DigitCount;
  }
}
