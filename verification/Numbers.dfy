/** Printing numbers in printf.c and reading them back in strto.c. */
module Numbers {
  import opened Bytes

  const BF_MAX := 20
  const ULONG_LIMIT := 0x1_0000_0000_0000_0000
  const NUL: byte := 0
  const ZERO: byte := '0' as int

  function Pow(base: nat, k: nat): nat {
    if k == 0 then 1 else base * Pow(base, k - 1)
  }

  // ----------------------------------------------------------------------- numerals

  /** The number a string of digits stands for. */
  function Value(digits: seq<nat>, base: nat): nat {
    if digits == [] then 0 else Value(digits[..|digits| - 1], base) * base + digits[|digits| - 1]
  }

  /** Digits of the base, without a leading zero unless there is nothing else. */
  predicate Numeral(digits: seq<nat>, base: nat) {
    && |digits| > 0
    && (forall i :: 0 <= i < |digits| ==> digits[i] < base)
    && (digits[0] == 0 ==> |digits| == 1)
  }

  lemma ValueSnoc(digits: seq<nat>, d: nat, base: nat)
    ensures Value(digits + [d], base) == Value(digits, base) * base + d
  {
    assert (digits + [d])[..|digits|] == digits;
  }

  lemma Multiple(k: int, base: nat)
    requires k >= 1
    ensures k * base >= base
  {
  }

  lemma ModuloUnique(a: nat, d: nat, b: nat, e: nat, base: nat)
    requires d < base && e < base && a * base + d == b * base + e
    ensures a == b && d == e
  {
    assert (b - a) * base == b * base - a * base;
    assert (a - b) * base == a * base - b * base;
    if a < b {
      Multiple(b - a, base);
    } else if b < a {
      Multiple(a - b, base);
    }
  }

  lemma {:induction false} ValuePositive(digits: seq<nat>, base: nat)
    requires base >= 2 && |digits| > 0 && digits[0] > 0
    ensures Value(digits, base) > 0
    decreases |digits|
  {
    if |digits| > 1 {
      ValuePositive(digits[..|digits| - 1], base);
      assert Value(digits[..|digits| - 1], base) * base >= 1;
    }
  }

  lemma OneDigit(d: nat, base: nat)
    ensures Value([d], base) == d
  {
    assert [d][..0] == [];
  }

  /** A number has only one numeral. */
  lemma {:induction false} NumeralUnique(a: seq<nat>, b: seq<nat>, base: nat)
    requires base >= 2 && Numeral(a, base) && Numeral(b, base) && Value(a, base) == Value(b, base)
    ensures a == b
    decreases |a|
  {
    var p, d, q, e := a[..|a| - 1], a[|a| - 1], b[..|b| - 1], b[|b| - 1];
    ModuloUnique(Value(p, base), d, Value(q, base), e, base);
    assert a == p + [d] && b == q + [e];
    if p != [] && q != [] {
      NumeralUnique(p, q, base);
    } else if p != [] {
      ValuePositive(p, base);
    } else if q != [] {
      ValuePositive(q, base);
    }
  }

  lemma Smaller(num: nat, base: nat)
    requires 2 <= base <= num
    ensures 1 <= num / base < num
  {
    Quotient(num, base);
    Times(base, num / base);
  }

  lemma LongerNumeral(rest: seq<nat>, num: nat, base: nat)
    requires 2 <= base <= num && Numeral(rest, base) && Value(rest, base) == num / base
    ensures 0 <= num % base < base
    ensures Numeral(rest + [num % base], base) && Value(rest + [num % base], base) == num
  {
    Quotient(num, base);
    Smaller(num, base);
    ValueSnoc(rest, num % base, base);
    OneDigit(0, base);
    assert rest != [0];
  }

  /** The numeral of a number. */
  function Digits(num: nat, base: nat): (digits: seq<nat>)
    requires base >= 2
    ensures Numeral(digits, base) && Value(digits, base) == num
  {
    if num < base then
      OneDigit(num, base);
      [num]
    else
      Smaller(num, base);
      var rest := Digits(num / base, base);
      LongerNumeral(rest, num, base);
      rest + [num % base]
  }

  // ----------------------------------------------------------------------- printing

  /** A digit as a character. */
  function DigitChar(d: nat, uc: bool): byte
    requires d < 16
  {
    if d < 10 then d + '0' as int else d + (if uc then 'A' as int else 'a' as int) - 10
  }

  function Text(digits: seq<nat>, uc: bool): (s: seq<byte>)
    requires forall i :: 0 <= i < |digits| ==> digits[i] < 16
    ensures |s| == |digits| && forall i :: 0 <= i < |s| ==> s[i] == DigitChar(digits[i], uc)
  {
    seq(|digits|, i requires 0 <= i < |digits| => DigitChar(digits[i], uc))
  }

  /** The word sizes and bases that are printed: 64 bits in base 10 or 16, 32 bits also in base 8. */
  predicate Printable(limit: nat, base: nat) {
    (limit == UINT32_LIMIT && base == 8) || (limit <= ULONG_LIMIT && (base == 10 || base == 16))
  }

  lemma Times(base: nat, x: nat)
    requires base >= 2 && x >= 1
    ensures base * x > x
  {
  }

  lemma {:induction false} PowMono(base: nat, j: nat, k: nat)
    requires base >= 2 && j <= k
    ensures 1 <= Pow(base, j) <= Pow(base, k)
    decreases k
  {
    if k > 0 {
      PowMono(base, if j < k then j else j - 1, k - 1);
      Times(base, Pow(base, k - 1));
    }
  }

  lemma {:induction false} PowAdd(base: nat, j: nat, k: nat)
    ensures Pow(base, j + k) == Pow(base, j) * Pow(base, k)
  {
    if j > 0 {
      PowAdd(base, j - 1, k);
      assert base * (Pow(base, j - 1) * Pow(base, k)) == (base * Pow(base, j - 1)) * Pow(base, k);
    } else {
      assert 1 * Pow(base, k) == Pow(base, k);
    }
  }

  lemma Fifth(base: nat)
    ensures Pow(base, 5) == base * (base * (base * (base * base)))
  {
    assert Pow(base, 1) == base * Pow(base, 0) == base;
    assert Pow(base, 2) == base * base;
    assert Pow(base, 3) == base * (base * base);
    assert Pow(base, 4) == base * (base * (base * base));
  }

  /** Twenty digits are enough. */
  lemma Enough(limit: nat, base: nat)
    requires Printable(limit, base)
    ensures limit <= Pow(base, BF_MAX)
  {
    Fifth(base);
    PowAdd(base, 5, 5);
    PowAdd(base, 10, 10);
    if base == 8 {
      assert Pow(8, 5) == 32768;
    } else if base == 10 {
      assert Pow(10, 5) == 100000;
    } else {
      assert Pow(16, 5) == 1048576;
    }
  }

  lemma {:induction false} LeadingPower(num: nat, base: nat)
    requires 2 <= base <= num
    ensures Pow(base, |Digits(num, base)| - 1) <= num
  {
    hide Digits, Value, Numeral, Pow;
    Smaller(num, base);
    OneLonger(num, base);
    var q := num / base;
    if q < base {
      SingleDigit(q, base);
      Finish(base, 0);
    } else {
      LeadingPower(q, base);
    }
    PowerStep(num, base, |Digits(q, base)| - 1);
  }

  lemma PowerStep(num: nat, base: nat, n: nat)
    requires base >= 2 && Pow(base, n) <= num / base
    ensures Pow(base, n + 1) <= num
  {
    Quotient(num, base);
    TimesMono(Pow(base, n), num / base, base);
  }

  lemma OneLonger(num: nat, base: nat)
    requires 2 <= base <= num
    ensures |Digits(num, base)| == |Digits(num / base, base)| + 1 && |Digits(num / base, base)| > 0
  {
    hide Value;
  }

  lemma SingleDigit(num: nat, base: nat)
    requires num < base && base >= 2
    ensures Digits(num, base) == [num]
  {
  }

  lemma DigitsFit(num: nat, limit: nat, base: nat)
    requires num < limit && Printable(limit, base)
    ensures |Digits(num, base)| <= BF_MAX
  {
    hide Pow, Digits;
    Enough(limit, base);
    if |Digits(num, base)| > BF_MAX {
      PowMono(base, BF_MAX, |Digits(num, base)| - 1);
      if num < base {
        SingleDigit(num, base);
      } else {
        LeadingPower(num, base);
      }
    }
  }

  /** The first loop: the largest power of the base that is not above the number. The product never leaves the word. */
  method TopDivisor(num: nat, limit: nat, base: nat) returns (d: nat, ghost k: nat)
    requires num < limit && Printable(limit, base)
    ensures k < BF_MAX && d == Pow(base, k) && 1 <= d && num < base * d && (d <= num || k == 0)
  {
    hide Pow;
    Enough(limit, base);
    d, k := 1, 0;
    Finish(base, 0);
    while num / d >= base
      invariant 1 <= d && d == Pow(base, k) && (d <= num || k == 0)
      decreases num - d
    {
      NextPower(num, d, base);
      Start(base, k, 0);
      assert d * base < limit;
      d := d * base;
      k := k + 1;
    }
    TopPower(num, d, base);
    if k >= BF_MAX {
      PowMono(base, BF_MAX, k);
      assert false;
    }
  }

  /** The structure `param`, as far as the conversions use it; `sign` is 0 for none. */
  class Param {
    var uc: bool
    var prec: int
    var sign: byte
    var base: nat
    const bf: array<byte>
    var bfLen: nat

    constructor ()
      ensures fresh(bf) && bf.Length == BF_MAX
    {
      bf := new byte[BF_MAX](_ => 0);
      uc, prec, sign, base, bfLen := false, -1, 0, 10, 0;
    }

    /** `ulli2a`, `uli2a` and `ui2a`, for words below `limit`. */
    method Ulli2a(number: nat, limit: nat)
      requires number < limit && Printable(limit, base) && bf.Length == BF_MAX
      modifies bf, `bfLen
      ensures prec == 0 && number == 0 ==> bfLen == old(bfLen) && bf[..] == old(bf[..])
      ensures prec != 0 || number != 0 ==> bfLen <= BF_MAX && bf[..bfLen] == Text(Digits(number, base), uc)
    {
      if prec == 0 && number == 0 {
        return;
      }
      var d, k := TopDivisor(number, limit, base);
      ghost var digits := PutDigits(number, d, k);
      NumeralUnique(digits, Digits(number, base), base);
    }

    /** `lli2a`, `li2a` and `i2a`: the most negative number is its own negation, and still prints right. */
    method Lli2a(number: int, limit: nat)
      requires limit % 2 == 0 && 0 - limit <= 2 * number < limit && Printable(limit, base) && bf.Length == BF_MAX
      modifies bf, `bfLen, `sign
      ensures sign == if number < 0 then '-' as int else old(sign)
      ensures prec == 0 && number == 0 ==> bfLen == old(bfLen) && bf[..] == old(bf[..])
      ensures prec != 0 || number != 0 ==>
        bfLen <= BF_MAX && bf[..bfLen] == Text(Digits(if number < 0 then -number else number, base), uc)
    {
      var num := number;
      if num < 0 {
        num := if 2 * -num < limit then -num else -num - limit;
        sign := '-' as int;
      }
      Ulli2a(if num < 0 then num + limit else num, limit);
    }

    /** The second loop: one digit for each power of the base from `d` down. */
    method PutDigits(number: nat, divisor: nat, ghost k: nat) returns (ghost digits: seq<nat>)
      requires bf.Length == BF_MAX && 2 <= base <= 16 && k < BF_MAX
      requires divisor == Pow(base, k) && 1 <= divisor && number < base * divisor
      requires divisor <= number || k == 0
      modifies bf, `bfLen
      ensures bfLen <= BF_MAX && Numeral(digits, base) && Value(digits, base) == number
      ensures bf[..bfLen] == Text(digits, uc)
    {
      hide Pow, Value, DigitChar;
      var num: nat := number;
      var d: nat := divisor;
      digits := [];
      var p := 0;
      ghost var j: nat := k + 1;
      Start(base, k, number);
      while d != 0
        invariant j <= k + 1 && p == |digits| == k + 1 - j
        invariant j == 0 ==> d == 0
        invariant j > 0 ==> d == Pow(base, j - 1) && d >= 1
        invariant num < Pow(base, j) && Value(digits, base) * Pow(base, j) + num == number
        invariant forall i :: 0 <= i < |digits| ==> digits[i] < base
        invariant p == 0 ==> num == number && d == divisor
        invariant p > 0 ==> digits[0] == 0 ==> k == 0
        invariant bf[..p] == Text(digits, uc)
        decreases j
      {
        Quotient(num, d);
        var dgt: nat := num / d;
        Divide(num, d, base, Value(digits, base), j);
        ValueSnoc(digits, dgt, base);
        bf[p] := DigitChar(dgt, uc);
        assert bf[..p + 1] == Text(digits + [dgt], uc);
        digits := digits + [dgt];
        p := p + 1;
        num := num % d;
        j := j - 1;
        d := d / base;
        PowPositive(base, if j > 0 then j - 1 else 0);
      }
      Finish(base, Value(digits, base));
      bfLen := p;
    }
  }

  lemma Start(base: nat, k: nat, number: nat)
    ensures Pow(base, k + 1) == base * Pow(base, k) && Value([], base) * Pow(base, k + 1) + number == number
  {
  }

  lemma Finish(base: nat, value: nat)
    ensures Pow(base, 0) == 1 && value * Pow(base, 0) == value
  {
  }

  lemma PowPositive(base: nat, k: nat)
    requires base >= 2
    ensures Pow(base, k) >= 1
  {
    PowMono(base, 0, k);
  }

  lemma Quotient(num: nat, d: nat)
    requires d >= 1
    ensures num == num / d * d + num % d && 0 <= num / d && 0 <= num % d < d
    ensures d <= num ==> num / d >= 1
  {
  }

  lemma TimesMono(a: nat, b: nat, d: nat)
    requires a <= b
    ensures a * d <= b * d
  {
  }

  lemma TopPower(num: nat, d: nat, base: nat)
    requires d >= 1 && base >= 1
    ensures num / d < base <==> num < base * d
  {
    Quotient(num, d);
    var q, r := num / d, num % d;
    if q < base {
      TimesMono(q, base - 1, d);
      assert (base - 1) * d == base * d - d;
    } else {
      TimesMono(base, q, d);
    }
  }

  lemma NextPower(num: nat, d: nat, base: nat)
    requires d >= 1 && base >= 2 && num / d >= base
    ensures d * base <= num && d < d * base && base * d == d * base
  {
    TopPower(num, d, base);
    Times(base, d);
  }

  lemma Cancelled(base: nat, x: nat)
    requires base >= 1
    ensures base * x / base == x
  {
    Quotient(base * x, base);
    ModuloUnique(x, 0, base * x / base, base * x % base, base);
  }

  lemma Regrouped(value: nat, base: nat, q: nat, d: nat, r: nat)
    ensures (value * base + q) * d + r == value * (base * d) + (q * d + r)
  {
  }

  lemma Divide(num: nat, d: nat, base: nat, value: nat, j: nat)
    requires j >= 1 && d == Pow(base, j - 1) && d >= 1 && base >= 2 && num < Pow(base, j)
    ensures num / d < base && num % d < d
    ensures (value * base + num / d) * d + num % d == value * Pow(base, j) + num
    ensures d / base == if j == 1 then 0 else Pow(base, j - 2)
  {
    TopPower(num, d, base);
    Quotient(num, d);
    Regrouped(value, base, num / d, d, num % d);
    if j > 1 {
      Cancelled(base, Pow(base, j - 2));
    }
  }

  // ----------------------------------------------------------------------- reading back

  predicate IsDigit(c: byte) {
    '0' as int <= c <= '9' as int
  }

  predicate IsLower(c: byte) {
    'a' as int <= c <= 'z' as int || (0xDF <= c && c != 0xF7)
  }

  predicate IsXDigit(c: byte) {
    IsDigit(c) || 'A' as int <= c <= 'F' as int || 'a' as int <= c <= 'f' as int
  }

  /** `tolower(c) == 'x'` */
  predicate IsX(c: byte) {
    c == 'x' as int || c == 'X' as int
  }

  /** The digit a hexadecimal character stands for. */
  function DigitOf(c: byte): nat {
    if IsDigit(c) then c - '0' as int
    else if 'a' as int <= c <= 'f' as int then c - 'a' as int + 10
    else if 'A' as int <= c <= 'F' as int then c - 'A' as int + 10
    else 0
  }

  function DigitsOf(s: seq<byte>): (digits: seq<nat>)
    ensures |digits| == |s| && forall i :: 0 <= i < |s| ==> digits[i] == DigitOf(s[i])
  {
    seq(|s|, i requires 0 <= i < |s| => DigitOf(s[i]))
  }

  predicate DigitIn(c: byte, base: nat) {
    IsXDigit(c) && DigitOf(c) < base
  }

  /** A C string: the terminating NUL is the last element. */
  predicate CString(s: seq<byte>) {
    |s| > 0 && s[|s| - 1] == NUL
  }

  /** `_parse_integer_fixup_radix`: how many characters to skip, and the base. */
  function FixupRadix(s: seq<byte>, base: nat): (nat, nat)
    requires CString(s)
  {
    var b := if base != 0 then base
             else if s[0] != ZERO then 10
             else if IsX(s[1]) && IsXDigit(s[2]) then 16 else 8;
    (if b == 16 && s[0] == ZERO && IsX(s[1]) then 2 else 0, b)
  }

  /** The end of the digits that start at `i`. */
  function RunEnd(s: seq<byte>, i: nat, base: nat): (e: nat)
    requires CString(s) && i < |s|
    ensures i <= e < |s| && !DigitIn(s[e], base)
    decreases |s| - i
  {
    if DigitIn(s[i], base) then RunEnd(s, i + 1, base) else i
  }

  lemma RunEndStep(s: seq<byte>, i: nat, base: nat)
    requires CString(s) && i < |s|
    ensures DigitIn(s[i], base) ==> i + 1 < |s| && RunEnd(s, i, base) == RunEnd(s, i + 1, base)
    ensures !DigitIn(s[i], base) ==> RunEnd(s, i, base) == i
  {
  }

  /** What the characters from `i` up to `e` are worth as digits. */
  function RunValue(s: seq<byte>, i: nat, e: nat, base: nat): nat
    requires i <= e <= |s|
  {
    Value(DigitsOf(s[i..e]), base)
  }

  lemma RunValueStep(s: seq<byte>, i: nat, e: nat, base: nat)
    requires i <= e < |s|
    ensures RunValue(s, i, i, base) == 0
    ensures RunValue(s, i, e + 1, base) == RunValue(s, i, e, base) * base + DigitOf(s[e])
  {
    hide DigitOf;
    assert DigitsOf(s[i..i]) == [];
    assert DigitsOf(s[i..e + 1]) == DigitsOf(s[i..e]) + [DigitOf(s[e])];
    ValueSnoc(DigitsOf(s[i..e]), DigitOf(s[e]), base);
  }

  /** Result and end of `simple_strtoul`; the result wraps in 64 bits. */
  function Parsed(s: seq<byte>, base: nat): (nat, nat)
    requires CString(s)
  {
    var (start, b) := FixupRadix(s, base);
    var e := RunEnd(s, start, b);
    (RunValue(s, start, e, b) % ULONG_LIMIT, e)
  }

  method ParseIntegerFixupRadix(s: seq<byte>, base: nat) returns (skip: nat, radix: nat)
    requires CString(s)
    ensures (skip, radix) == FixupRadix(s, base) && skip < |s|
  {
    radix := base;
    if radix == 0 {
      if s[0] == ZERO {
        if IsX(s[1]) && IsXDigit(s[2]) {
          radix := 16;
        } else {
          radix := 8;
        }
      } else {
        radix := 10;
      }
    }
    skip := 0;
    if radix == 16 && s[0] == ZERO && IsX(s[1]) {
      skip := skip + 2;
    }
  }

  /** `0x` without a hexadecimal digit after it makes an octal 0 that ends before the `x`; with base 16 asked for, it
      is skipped all the same. */
  lemma PrefixAlone(rest: seq<byte>, x: byte)
    requires CString(rest) && !IsXDigit(rest[0]) && IsX(x)
    ensures Parsed([ZERO, x] + rest, 0) == (0, 1) && Parsed([ZERO, x] + rest, 16) == (0, 2)
  {
    hide Value;
    var s := [ZERO, x] + rest;
    assert s[2] == rest[0];
    assert s[0..1] == [ZERO] && s[2..2] == [];
    assert DigitsOf([ZERO]) == [0];
    OneDigit(0, 8);
    RunEndStep(s, 0, 8);
    RunEndStep(s, 1, 8);
    RunEndStep(s, 2, 16);
    RunValueStep(s, 2, 2, 16);
  }

  /** A leading zero makes a number octal, and digits 8 and 9 end it. */
  lemma OctalEnds(rest: seq<byte>, c: byte)
    requires CString(rest) && c in {'8' as int, '9' as int}
    ensures Parsed([ZERO, c] + rest, 0) == (0, 1)
  {
    hide Value;
    var s := [ZERO, c] + rest;
    assert s[0..1] == [ZERO];
    assert DigitsOf([ZERO]) == [0];
    OneDigit(0, 8);
    RunEndStep(s, 0, 8);
    RunEndStep(s, 1, 8);
  }

  method SimpleStrtoul(s: seq<byte>, base: nat) returns (result: nat, endp: nat)
    requires CString(s)
    ensures (result, endp) == Parsed(s, base)
  {
    hide RunEnd, RunValue, FixupRadix, DigitOf, IsXDigit;
    var start, radix := ParseIntegerFixupRadix(s, base);
    var cp := start;
    result := 0;
    RunValueStep(s, start, start, radix);
    while IsXDigit(s[cp]) && DigitValue(s[cp]) < radix
      invariant start <= cp < |s|
      invariant RunEnd(s, start, radix) == RunEnd(s, cp, radix)
      invariant result == RunValue(s, start, cp, radix) % ULONG_LIMIT
      decreases |s| - cp
    {
      var value := DigitValue(s[cp]);
      RunEndStep(s, cp, radix);
      RunValueStep(s, start, cp, radix);
      WrappedStep(RunValue(s, start, cp, radix), radix, value);
      result := (result * radix + value) % ULONG_LIMIT;
      cp := cp + 1;
    }
    RunEndStep(s, cp, radix);
    endp := cp;
  }

  /** The conditional expression in the loop of `simple_strtoul`. */
  function DigitValue(c: byte): (v: nat)
    requires IsXDigit(c)
    ensures v == DigitOf(c) < 16
  {
    if IsDigit(c) then c - '0' as int else (if IsLower(c) then c - ('a' as int - 'A' as int) else c) - 'A' as int + 10
  }

  lemma WrappedStep(v: nat, radix: nat, d: nat)
    ensures (v % ULONG_LIMIT * radix + d) % ULONG_LIMIT == (v * radix + d) % ULONG_LIMIT
  {
    var q := v / ULONG_LIMIT;
    assert v == q * ULONG_LIMIT + v % ULONG_LIMIT;
    assert v * radix + d == (q * radix) * ULONG_LIMIT + (v % ULONG_LIMIT * radix + d);
    ModuloMultiple(v % ULONG_LIMIT * radix + d, q * radix);
  }

  lemma ModuloMultiple(a: nat, k: nat)
    ensures (k * ULONG_LIMIT + a) % ULONG_LIMIT == a % ULONG_LIMIT
  {
  }

  lemma {:induction false} RunOver(s: seq<byte>, i: nat, e: nat, base: nat)
    requires CString(s) && i <= e < |s| && !DigitIn(s[e], base)
    requires forall k :: i <= k < e ==> DigitIn(s[k], base)
    ensures RunEnd(s, i, base) == e
    decreases e - i
  {
    if i < e {
      RunOver(s, i + 1, e, base);
    }
  }

  lemma CharDigit(d: nat, uc: bool)
    requires d < 16
    ensures IsXDigit(DigitChar(d, uc)) && DigitOf(DigitChar(d, uc)) == d && !IsX(DigitChar(d, uc))
    ensures DigitChar(d, uc) == ZERO <==> d == 0
  {
  }

  /** Digits after `skip` characters, before anything that is no digit, are read as the number they stand for. */
  lemma ReadsDigits(s: seq<byte>, skip: nat, digits: seq<nat>, base: nat, uc: bool)
    requires CString(s) && 2 <= base <= 16 && Value(digits, base) < ULONG_LIMIT
    requires forall i :: 0 <= i < |digits| ==> digits[i] < base
    requires skip + |digits| < |s| && !IsXDigit(s[skip + |digits|])
    requires s[skip..skip + |digits|] == Text(digits, uc)
    ensures RunEnd(s, skip, base) == skip + |digits|
    ensures DigitsOf(s[skip..skip + |digits|]) == digits
    ensures RunValue(s, skip, skip + |digits|, base) % ULONG_LIMIT == Value(digits, base)
  {
    hide Value, DigitChar, IsXDigit, DigitOf;
    var e := skip + |digits|;
    forall k | skip <= k < e
      ensures DigitIn(s[k], base) && DigitOf(s[k]) == digits[k - skip]
    {
      assert s[k] == s[skip..e][k - skip];
      CharDigit(digits[k - skip], uc);
    }
    RunOver(s, skip, e, base);
    assert DigitsOf(s[skip..e]) == digits;
  }

  /** Whatever is printed in base 8, 10 or 16 is read back as the same number, with the end right after it. In base 10
      the base need not be given. */
  lemma PrintParse(num: nat, base: nat, uc: bool, rest: seq<byte>)
    requires num < ULONG_LIMIT && base in {8, 10, 16} && CString(rest) && !IsXDigit(rest[0]) && !IsX(rest[0])
    ensures Parsed(Text(Digits(num, base), uc) + rest, base) == (num, |Digits(num, base)|)
    ensures base == 10 ==> Parsed(Text(Digits(num, base), uc) + rest, 0) == (num, |Digits(num, base)|)
  {
    hide Value, DigitChar, IsXDigit, DigitOf, IsX, Digits;
    var digits := Digits(num, base);
    var t := Text(digits, uc);
    var s := t + rest;
    assert s[0..|digits|] == t;
    CharDigit(digits[0], uc);
    if |digits| > 1 {
      CharDigit(digits[1], uc);
    }
    ReadsDigits(s, 0, digits, base, uc);
    if num != 0 {
      OnlyZero(digits, base);
    }
    if base == 10 && num == 0 {
      ZeroDigits();
      ReadsDigits(s, 0, digits, 8, uc);
    }
  }

  lemma OnlyZero(digits: seq<nat>, base: nat)
    requires Numeral(digits, base) && Value(digits, base) != 0
    ensures digits[0] != 0
  {
    OneDigit(digits[0], base);
    if |digits| == 1 {
      assert digits == [digits[0]];
    }
  }

  lemma ZeroDigits()
    ensures Digits(0, 10) == [0] && Value([0], 8) == 0 && Numeral([0], 8)
  {
    OneDigit(0, 8);
  }

  lemma {:induction false} LeadingZero(digits: seq<nat>, base: nat)
    ensures Value([0] + digits, base) == Value(digits, base)
    decreases |digits|
  {
    if digits == [] {
      assert [0] + digits == [0];
      OneDigit(0, base);
    } else {
      var init := digits[..|digits| - 1];
      LeadingZero(init, base);
      assert ([0] + digits)[..|digits|] == [0] + init;
    }
  }

  /** With its prefix, as the alternate form prints it, a number is read back without giving the base. */
  lemma AlternateHexParse(num: nat, uc: bool, rest: seq<byte>)
    requires num < ULONG_LIMIT && CString(rest) && !IsXDigit(rest[0])
    ensures var t: seq<byte> := [ZERO, if uc then 'X' as int else 'x' as int] + Text(Digits(num, 16), uc);
      Parsed(t + rest, 0) == Parsed(t + rest, 16) == (num, |t|)
  {
    hide Value, DigitChar, Digits, DigitOf;
    var digits := Digits(num, 16);
    var prefix: seq<byte> := [ZERO, if uc then 'X' as int else 'x' as int];
    var s := prefix + Text(digits, uc) + rest;
    assert s[2..2 + |digits|] == Text(digits, uc);
    CharDigit(digits[0], uc);
    ReadsDigits(s, 2, digits, 16, uc);
  }

  lemma AlternateOctalParse(num: nat, rest: seq<byte>)
    requires num < ULONG_LIMIT && CString(rest) && !IsXDigit(rest[0])
    ensures var t: seq<byte> := [ZERO] + Text(Digits(num, 8), false);
      Parsed(t + rest, 0) == (num, |t|)
  {
    hide Value, DigitChar, Digits, RunEnd, DigitOf, IsXDigit;
    var digits := Digits(num, 8);
    var more := [0] + digits;
    ZeroChar(digits[0]);
    LeadingZero(digits, 8);
    var t: seq<byte> := [ZERO] + Text(digits, false);
    assert t == Text(more, false);
    var s := t + rest;
    assert s[0..|more|] == t;
    ReadsDigits(s, 0, more, 8, false);
  }

  lemma ZeroChar(d: nat)
    requires d < 16
    ensures DigitChar(0, false) == ZERO && !IsX(DigitChar(d, false))
  {
  }
}
