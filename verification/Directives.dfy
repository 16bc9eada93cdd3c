/** What a printf directive says, and that `tfp_format` reads it so. */
module Directives {
  import opened Bytes
  import opened Numbers
  import opened Formatting

  const DOT: byte := '.' as int
  const ELL: byte := 'l' as int

  const STAR: byte := '*' as int
  const ZED: byte := 'z' as int

  /** A width or precision: left out, a dot alone, a number, or an argument. */
  datatype Extent = Absent | Bare | Given(n: nat) | Star

  datatype Modifier = Short | Size | Long | LongLong

  /** A directive as it is meant. */
  datatype Spec = Spec(flags: seq<byte>, width: Extent, prec: Extent, modifier: Modifier, conv: byte)

  function Decimal(n: nat): (s: seq<byte>)
    ensures |s| > 0 && (forall i :: 0 <= i < |s| ==> IsDigit(s[i])) && (s[0] == ZERO ==> n == 0)
  {
    OneDigit(0, 10);
    Text(Digits(n, 10), false)
  }

  function ExtentText(e: Extent): seq<byte> {
    match e
    case Absent => []
    case Bare => []
    case Given(n) => Decimal(n)
    case Star => [STAR]
  }

  function PrecisionText(s: Spec): seq<byte> {
    if s.prec.Absent? then [] else [DOT] + ExtentText(s.prec)
  }

  function ModifierText(m: Modifier): seq<byte> {
    match m
    case Short => []
    case Size => [ZED]
    case Long => [ELL]
    case LongLong => [ELL, ELL]
  }

  /** A directive after its percent sign. */
  function Spell(s: Spec): seq<byte> {
    s.flags + ExtentText(s.width) + PrecisionText(s) + ModifierText(s.modifier) + [s.conv]
  }

  /** It ends what comes before it: neither a flag nor something that `a2u` takes for a digit. */
  predicate Stops(c: byte) {
    !IsFlag(c) && !DigitIn(c, 11) && c != '*' as int
  }

  /** A width written 0 would be a flag, and a conversion character must not be taken for more of the directive. */
  predicate Meant(s: Spec) {
    && (forall c :: c in s.flags ==> IsFlag(c))
    && !s.width.Bare? && (s.width.Given? ==> s.width.n > 0)
    && Stops(s.conv) && s.conv != DOT && s.conv != NUL
    && (s.modifier != LongLong && s.modifier != Size ==> s.conv != ELL) && (s.modifier.Short? ==> s.conv != ZED)
  }

  /** An `int` argument. */
  function IntArg(args: seq<Arg>, k: nat): int {
    Signed(WordArg(args, k), UINT32_LIMIT)
  }

  /** A negative argument for the width stands for a minus sign and the width. */
  function WidthOf(s: Spec, args: seq<Arg>, k: nat): int {
    match s.width
    case Given(n) => Int(n)
    case Star => if IntArg(args, k) < 0 then Int(-IntArg(args, k)) else IntArg(args, k)
    case _ => 0
  }

  predicate LeftOf(s: Spec, args: seq<Arg>, k: nat) {
    MINUS in s.flags || (s.width.Star? && IntArg(args, k) < 0)
  }

  function AfterWidth(s: Spec, k: nat): nat {
    if s.width.Star? then k + 1 else k
  }

  /** A negative argument for the precision stands for none. */
  function PrecisionOf(s: Spec, args: seq<Arg>, k: nat): int {
    match s.prec
    case Absent => -1
    case Bare => 0
    case Given(n) => Int(n)
    case Star => if IntArg(args, k) < 0 then -1 else IntArg(args, k)
  }

  function Longs(m: Modifier): nat {
    match m
    case Short => 0
    case LongLong => 2
    case _ => 1
  }

  /** What the formatter is to do, and where it goes on: width and precision are kept in an `int`; `-` and a precision
      take back a leading zero. */
  function Meaning(s: Spec, i: nat, args: seq<Arg>, k: nat): Directive {
    var k1 := AfterWidth(s, k);
    var prec := PrecisionOf(s, args, k1);
    Directive(ZERO in s.flags && MINUS !in s.flags && prec < 0, '#' as int in s.flags, LeftOf(s, args, k),
              WidthOf(s, args, k), prec, Longs(s.modifier), s.conv, i, if s.prec.Star? then k1 + 1 else k1)
  }

  lemma Within(s: seq<byte>, i: nat, j: nat)
    requires i <= j <= |s|
    ensures forall k :: i <= k < j ==> s[k] in s[i..j]
  {
    forall k | i <= k < j ensures s[k] in s[i..j] {
      assert s[k] == s[i..j][k - i];
    }
  }

  lemma FlagsEnd(d: Directive, fmt: seq<byte>, b: nat)
    requires On(d, fmt) && d.i - 1 <= b < |fmt| && !IsFlag(fmt[b])
    requires forall c :: c in fmt[d.i - 1..b] ==> IsFlag(c)
    ensures var run := fmt[d.i - 1..b];
      Flags(d, fmt) == d.(left := d.left || MINUS in run, lz := d.lz || ZERO in run, alt := d.alt || '#' as int in run,
                          ch := fmt[b], i := b + 1)
  {
    hide Flags, IsFlag;
    FlagsRead(d, fmt);
    var e := Flags(d, fmt).i - 1;
    Within(fmt, d.i - 1, b);
    Within(fmt, d.i - 1, e);
  }

  lemma DecimalDigit(digit: nat)
    requires digit < 10
    ensures DigitIn(DigitChar(digit, false), 11) && DigitOf(DigitChar(digit, false)) == digit
  {
  }

  /** `a2u` reads a numeral back, if it stops there. */
  lemma NumberBack(d: Directive, fmt: seq<byte>, n: nat, e: nat)
    requires On(d, fmt) && d.i - 1 <= e < |fmt| && !DigitIn(fmt[e], 11)
    requires fmt[d.i - 1..e] == Decimal(n)
    ensures A2u(d, fmt) == (d.(ch := fmt[e], i := e + 1), n % UINT32_LIMIT)
  {
    hide DigitIn, DigitOf, DigitChar, Value, RunEnd, Digits;
    var digits, start := Digits(n, 10), d.i - 1;
    var text := fmt[start..e];
    forall i | 0 <= i < |text|
      ensures DigitIn(text[i], 11) && DigitsOf(text)[i] == digits[i]
    {
      DecimalDigit(digits[i]);
    }
    assert DigitsOf(text) == digits;
    forall k | start <= k < e ensures DigitIn(fmt[k], 11) {
      assert fmt[k] == text[k - start];
    }
    RunOver(fmt, start, e, 11);
  }

  lemma InInt(n: nat)
    ensures Signed(n % UINT32_LIMIT, UINT32_LIMIT) == Int(n) && Int(0) == 0
  {
  }

  lemma WidthBack(d: Directive, fmt: seq<byte>, args: seq<Arg>, s: Spec, e: nat)
    requires On(d, fmt) && d.i - 1 <= e < |fmt| && Stops(fmt[e]) && Meant(s)
    requires fmt[d.i - 1..e] == ExtentText(s.width) && d.width == 0 && d.left == (MINUS in s.flags)
    ensures Width(d, fmt, args) == d.(left := LeftOf(s, args, d.k), width := WidthOf(s, args, d.k), ch := fmt[e],
                                      i := e + 1, k := AfterWidth(s, d.k))
  {
    hide A2u, Decimal, Signed, Int;
    match s.width
    case Given(n) =>
      assert d.ch == fmt[d.i - 1..e][0];
      NumberBack(d, fmt, n, e);
      InInt(n);
    case Star =>
      assert d.ch == fmt[d.i - 1..e][0] && e == d.i;
    case _ =>
  }

  lemma PrecisionBack(d: Directive, fmt: seq<byte>, args: seq<Arg>, s: Spec, e: nat)
    requires On(d, fmt) && d.i - 1 <= e < |fmt| && Stops(fmt[e]) && fmt[e] != DOT
    requires fmt[d.i - 1..e] == PrecisionText(s) && d.prec == -1
    ensures Precision(d, fmt, args) == d.(prec := PrecisionOf(s, args, d.k), ch := fmt[e], i := e + 1,
                                          k := if s.prec.Star? then d.k + 1 else d.k)
  {
    hide A2u, Decimal, Signed, Int;
    if !s.prec.Absent? {
      assert d.ch == fmt[d.i - 1..e][0];
      assert fmt[d.i..e] == fmt[d.i - 1..e][1..] == ExtentText(s.prec);
      match s.prec
      case Given(n) =>
        assert fmt[d.i] == fmt[d.i..e][0];
        NumberBack(Advance(d, fmt), fmt, n, e);
        InInt(n);
      case Star =>
        assert fmt[d.i] == fmt[d.i..e][0] && e == d.i + 1;
      case Bare =>
        assert e == d.i;
      case Absent =>
    }
  }

  lemma LengthBack(d: Directive, fmt: seq<byte>, s: Spec, e: nat)
    requires On(d, fmt) && d.i - 1 <= e < |fmt| && Meant(s) && fmt[e] == s.conv
    requires fmt[d.i - 1..e] == ModifierText(s.modifier) && d.lng == 0
    ensures Length(d, fmt) == d.(lng := Longs(s.modifier), ch := fmt[e], i := e + 1)
  {
    hide Stops;
    assert e == d.i - 1 + |ModifierText(s.modifier)|;
    if !s.modifier.Short? {
      assert fmt[d.i - 1] == fmt[d.i - 1..e][0];
    }
    if s.modifier.LongLong? {
      assert fmt[d.i] == fmt[d.i - 1..e][1];
    }
  }

  /** The parts of a spelled directive, where they lie. */
  lemma Parts(before: seq<byte>, f: seq<byte>, w: seq<byte>, p: seq<byte>, l: seq<byte>, c: byte, rest: seq<byte>)
    ensures var fmt := before + (f + w + p + l + [c]) + rest;
      var i1 := |before| + |f|; var i2 := i1 + |w|; var i3 := i2 + |p|; var i4 := i3 + |l|;
      && i4 < |fmt| && fmt[|before|..i1] == f && fmt[i1..i2] == w && fmt[i2..i3] == p && fmt[i3..i4] == l
      && fmt[i4] == c
  {
  }

  /** Where flags, width and precision end, something stands that stops them. */
  lemma Boundaries(fmt: seq<byte>, s: Spec, i1: nat, i2: nat, i3: nat, i4: nat)
    requires Meant(s) && i1 <= i2 <= i3 <= i4 < |fmt| && fmt[i4] == s.conv
    requires fmt[i1..i2] == ExtentText(s.width) && fmt[i2..i3] == PrecisionText(s)
    requires fmt[i3..i4] == ModifierText(s.modifier)
    ensures Stops(fmt[i3]) && fmt[i3] != DOT && Stops(fmt[i2]) && !IsFlag(fmt[i1])
  {
    hide Decimal;
    if i3 < i4 {
      assert fmt[i3] == fmt[i3..i4][0];
    }
    if i2 < i3 {
      assert fmt[i2] == fmt[i2..i3][0];
    }
    if i1 < i2 {
      assert fmt[i1] == fmt[i1..i2][0];
    }
  }

  lemma SpellParts(s: Spec, before: seq<byte>, rest: seq<byte>)
    requires CString(rest)
    ensures var fmt := before + Spell(s) + rest;
      var i1 := |before| + |s.flags|; var i2 := i1 + |ExtentText(s.width)|; var i3 := i2 + |PrecisionText(s)|;
      var i4 := i3 + |ModifierText(s.modifier)|;
      && CString(fmt) && |before| + |Spell(s)| == i4 + 1 < |fmt| && fmt[i4] == s.conv && fmt[|before|..i1] == s.flags
      && fmt[i1..i2] == ExtentText(s.width) && fmt[i2..i3] == PrecisionText(s)
      && fmt[i3..i4] == ModifierText(s.modifier)
  {
    hide ExtentText, PrecisionText, ModifierText;
    Parts(before, s.flags, ExtentText(s.width), PrecisionText(s), ModifierText(s.modifier), s.conv, rest);
  }

  /** However a directive is put together, it is read as it is meant, wherever it stands and whatever follows. */
  lemma DirectiveRead(s: Spec, before: seq<byte>, rest: seq<byte>, args: seq<Arg>, k: nat)
    requires Meant(s) && CString(rest)
    ensures var fmt := before + Spell(s) + rest;
      CString(fmt) && Parse(fmt, |before|, args, k) == Meaning(s, |before| + |Spell(s)|, args, k)
  {
    hide Spell, Flags, Width, Precision, Length, ExtentText, PrecisionText, ModifierText, Meaning, Stops, Meant, Int,
      CString, Parse;
    SpellParts(s, before, rest);
    var fmt := before + Spell(s) + rest;
    var i1 := |before| + |s.flags|;
    var i2 := i1 + |ExtentText(s.width)|;
    var i3 := i2 + |PrecisionText(s)|;
    var i4 := i3 + |ModifierText(s.modifier)|;
    Boundaries(fmt, s, i1, i2, i3, i4);
    Fields(fmt, s, |before|, args, k, i1, i2, i3, i4);
  }

  lemma Fields(fmt: seq<byte>, s: Spec, i: nat, args: seq<Arg>, k: nat, i1: nat, i2: nat, i3: nat, i4: nat)
    requires Meant(s) && CString(fmt) && i <= i1 <= i2 <= i3 <= i4 < |fmt| && fmt[i4] == s.conv && fmt[i..i1] == s.flags
    requires fmt[i1..i2] == ExtentText(s.width) && fmt[i2..i3] == PrecisionText(s)
    requires fmt[i3..i4] == ModifierText(s.modifier)
    requires Stops(fmt[i3]) && fmt[i3] != DOT && Stops(fmt[i2]) && !IsFlag(fmt[i1])
    ensures Parse(fmt, i, args, k) == Meaning(s, i4 + 1, args, k)
  {
    hide Flags, Width, Precision, Length, ExtentText, PrecisionText, PrecisionOf, ModifierText, WidthOf, LeftOf,
      AfterWidth, Longs, Stops, Int;
    MeantFlags(s);
    var begun := Begin(fmt, i, k);
    FlagsEnd(begun, fmt, i1);
    var f := Flags(begun, fmt);
    f := f.(lz := f.lz && !f.left);
    WidthBack(f, fmt, args, s, i2);
    var wide := Width(f, fmt, args);
    PrecisionBack(wide, fmt, args, s, i3);
    var precise := Precision(wide, fmt, args);
    LengthBack(precise.(lz := precise.lz && precise.prec < 0), fmt, s, i4);
  }

  lemma MeantFlags(s: Spec)
    requires Meant(s)
    ensures forall c :: c in s.flags ==> IsFlag(c)
  {
  }

  /** `%2147483648u` */
  function Widest(): (fmt: seq<byte>)
    ensures CString(fmt)
  {
    hide Spell;
    [PERCENT] + Spell(Spec([], Given(INT_LIMIT), Absent, Short, 'u' as int)) + [NUL]
  }

  /** Its width wraps to the least `int`, and any number comes out 2^31 characters wide. */
  lemma WidestField(num: nat, base: nat)
    requires num < UINT32_LIMIT
    ensures |Written(Widest(), [Word(num)], base)| == INT_LIMIT
  {
    hide Parse, Spell, NumberField;
    var s := Spec([], Given(INT_LIMIT), Absent, Short, 'u' as int);
    var args := [Word(num)];
    var fmt := Widest();
    DirectiveRead(s, [PERCENT], [NUL], args, 0);
    IntOf(INT_LIMIT - UINT32_LIMIT);
    IntPeriod(INT_LIMIT, -1);
    var d := Meaning(s, 1 + |Spell(s)|, args, 0);
    assert Parse(fmt, 1, args, 0) == d && fmt[d.i] == NUL;
    var text := NumberField(LayoutOf(d, false, NUL, 10), num);
    LeastNumberField(d, num);
    assert Formatted(fmt, d.i, args, 1, 10) == [];
    assert Formatted(fmt, 0, args, 0, base) == text + [];
  }

  lemma LeastNumberField(d: Directive, num: nat)
    requires num < UINT32_LIMIT && d.width == 0 - INT_LIMIT && d.prec == -1 && !d.alt
    ensures |NumberField(LayoutOf(d, false, NUL, 10), num)| == INT_LIMIT
  {
    hide Int, Digits, Field, Missing;
    var l := LayoutOf(d, false, NUL, 10);
    var body := Text(Digits(num, 10), false);
    DigitsFit(num, ULONG_LIMIT, 10);
    ContentIs(l, |body|);
    LeastWidthWraps(l, body);
  }
}
