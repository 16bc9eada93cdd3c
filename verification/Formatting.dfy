/** Formatted output: `tfp_format` and the two string sinks of printf.c. */
module Formatting {
  import opened Bytes
  import opened Numbers

  const SPACE: byte := ' ' as int
  const MINUS: byte := '-' as int
  const PERCENT: byte := '%' as int
  const INT_LIMIT := 0x8000_0000

  function Max(a: int, b: int): int {
    if a < b then b else a
  }

  function Signed(w: int, limit: nat): (n: int)
    requires limit > 0 && limit % 2 == 0
    ensures 0 - limit <= 2 * n < limit
  {
    var u := w % limit;
    if 2 * u < limit then u else u - limit
  }

  /** A result kept in an `int`. */
  function Int(x: int): (n: int)
    ensures 0 - INT_LIMIT <= n < INT_LIMIT
  {
    Signed(x, UINT32_LIMIT)
  }

  lemma IntOf(x: int)
    ensures 0 - INT_LIMIT <= x < INT_LIMIT ==> Int(x) == x
    ensures 0 - UINT32_LIMIT <= x < 0 - INT_LIMIT ==> Int(x) == x + UINT32_LIMIT
  {
  }

  lemma IntPeriod(x: int, k: int)
    ensures Int(x + k * UINT32_LIMIT) == Int(x)
  {
    assert (x + k * UINT32_LIMIT) % UINT32_LIMIT == x % UINT32_LIMIT;
  }

  /** Subtracting in between makes no difference. */
  lemma IntAgain(a: int, b: int)
    ensures Int(Int(a) - b) == Int(a - b)
  {
    var k := if 2 * (a % UINT32_LIMIT) < UINT32_LIMIT then a / UINT32_LIMIT else a / UINT32_LIMIT + 1;
    assert Int(a) == a - k * UINT32_LIMIT;
    hide Int;
    IntPeriod(a - b, -k);
  }

  // ------------------------------------------------------------------ one field

  /** `putchw`: blanks or zeros up to the width, sign, alternate prefix, zeros up to the precision, and the text. */
  datatype Layout = Layout(lz: bool, alt: bool, uc: bool, left: bool, width: int, prec: int, sign: byte, base: nat)

  function Sign(l: Layout): seq<byte> {
    if l.sign == NUL then [] else [l.sign]
  }

  function Prefix(l: Layout): seq<byte> {
    if !l.alt then []
    else if l.base == 16 then [ZERO, if l.uc then 'X' as int else 'x' as int]
    else if l.base == 8 then [ZERO] else []
  }

  /** Zeros up to the precision; `prec -= bf_len` is kept in an `int`. */
  function Zeros(l: Layout, body: nat): nat {
    Max(Int(l.prec - body), 0)
  }

  /** Everything but the filling. */
  function Content(l: Layout, body: nat): nat {
    |Sign(l)| + |Prefix(l)| + body + Zeros(l, body)
  }

  /** How many characters are missing to the width, which is kept in an `int` as well. */
  function Missing(l: Layout, body: nat): nat {
    Max(Int(l.width - Content(l, body)), 0)
  }

  function Pad(here: bool, n: nat, c: byte): seq<byte> {
    if here then Fill(n, c) else []
  }

  function Field(l: Layout, body: seq<byte>): seq<byte> {
    var fill := Missing(l, |body|);
    Pad(!l.lz && !l.left, fill, SPACE) + Sign(l) + Prefix(l) + Pad(true, Zeros(l, |body|), ZERO)
    + Pad(l.lz, fill, ZERO) + body + Pad(!l.lz && l.left, fill, SPACE)
  }

  /** A field is as wide as asked, or as its content needs, exactly if the width does not wrap around below. */
  lemma FieldWidth(l: Layout, body: seq<byte>)
    requires 0 - INT_LIMIT <= l.width < INT_LIMIT && Content(l, |body|) < INT_LIMIT
    ensures |Field(l, body)| == Max(l.width, Content(l, |body|)) <==> l.width - Content(l, |body|) >= 0 - INT_LIMIT
  {
    hide Content, Field, Int;
    FieldLength(l, body);
    IntOf(l.width - Content(l, |body|));
  }

  lemma FieldLength(l: Layout, body: seq<byte>)
    ensures |Field(l, body)| == Content(l, |body|) + Missing(l, |body|)
  {
    hide Sign, Prefix, Zeros, Missing;
  }

  /** Sign, prefix, and the longer of precision and text. */
  lemma ContentIs(l: Layout, body: nat)
    requires body < INT_LIMIT && -1 <= l.prec < INT_LIMIT
    ensures Content(l, body) == |Sign(l)| + |Prefix(l)| + Max(l.prec, body)
  {
    hide Int, Sign, Prefix;
    IntOf(l.prec - body);
  }

  /** The least width wraps: any text at all comes out 2^31 characters wide. */
  lemma LeastWidthWraps(l: Layout, body: seq<byte>)
    requires l.width == 0 - INT_LIMIT && 1 <= Content(l, |body|) <= INT_LIMIT
    ensures |Field(l, body)| == INT_LIMIT
  {
    hide Content, Field, Int;
    FieldLength(l, body);
    IntOf(l.width - Content(l, |body|));
  }

  // --------------------------------------------------------------------- sinks

  /** The two `putf` functions with their data: `_vsnprintf_putcf` writes up to a capacity, `_vsprintf_putcf` into
      memory that is long enough. */
  class Sink {
    const bounded: bool
    const dest: array<byte>
    const destCapacity: nat
    /** What an unbounded sink has written. */
    var memory: seq<byte>
    var numChars: nat
    ghost var written: seq<byte>

    ghost predicate Valid()
      reads this, dest
    {
      && numChars == |written| && destCapacity < dest.Length
      && (if bounded then dest[..Min(numChars)] == written[..Min(numChars)] else memory == written)
    }

    function Min(n: nat): (m: nat)
      ensures m <= n && m <= destCapacity && (m == n || m == destCapacity)
    {
      if n < destCapacity then n else destCapacity
    }

    constructor Vsnprintf(str: array<byte>, size: nat)
      requires 1 <= size <= str.Length
      ensures Valid() && bounded && dest == str && destCapacity == size - 1 && written == []
    {
      bounded, dest, destCapacity, memory, numChars, written := true, str, size - 1, [], 0, [];
    }

    constructor Vsprintf()
      ensures Valid() && !bounded && fresh(dest) && written == []
    {
      bounded, destCapacity, memory, numChars, written := false, 0, [], 0, [];
      dest := new byte[1](_ => 0);
    }

    method Put(c: byte)
      requires Valid()
      modifies this, dest
      ensures Valid() && written == old(written) + [c]
      ensures dest[destCapacity..] == old(dest[destCapacity..])
    {
      if bounded {
        if numChars < destCapacity {
          dest[numChars] := c;
        }
      } else {
        memory := memory + [c];
      }
      numChars := numChars + 1;
      written := written + [c];
    }

    method PutFill(n: int, c: byte)
      requires Valid()
      modifies this, dest
      ensures Valid() && written == old(written) + Fill(Max(n, 0), c)
      ensures dest[destCapacity..] == old(dest[destCapacity..])
    {
      var count := n;
      while count > 0
        invariant count <= n || count <= 0
        invariant Valid() && written == old(written) + Fill(Max(n, 0) - Max(count, 0), c)
        invariant dest[destCapacity..] == old(dest[destCapacity..])
        decreases count
      {
        Put(c);
        count := count - 1;
        assert Fill(Max(n, 0) - Max(count, 0) - 1, c) + [c] == Fill(Max(n, 0) - Max(count, 0), c);
      }
    }

    /** The text itself, which ends with its length or at a NUL. */
    method PutText(bf: seq<byte>, bfLen: nat)
      requires Valid() && bfLen <= |bf| && forall i :: 0 <= i < bfLen ==> bf[i] != NUL
      modifies this, dest
      ensures Valid() && written == old(written) + bf[..bfLen]
      ensures dest[destCapacity..] == old(dest[destCapacity..])
    {
      var p := 0;
      while p < bfLen && bf[p] != NUL
        invariant p <= bfLen
        invariant Valid() && written == old(written) + bf[..p]
        invariant dest[destCapacity..] == old(dest[destCapacity..])
      {
        Put(bf[p]);
        p := p + 1;
        assert bf[..p - 1] + [bf[p - 1]] == bf[..p];
      }
    }

    method PutSign(l: Layout)
      requires Valid()
      modifies this, dest
      ensures Valid() && written == old(written) + Sign(l)
      ensures dest[destCapacity..] == old(dest[destCapacity..])
    {
      if l.sign != NUL {
        Put(l.sign);
      } else {
        assert written + [] == written;
      }
    }

    method PutPrefix(l: Layout)
      requires Valid()
      modifies this, dest
      ensures Valid() && written == old(written) + Prefix(l)
      ensures dest[destCapacity..] == old(dest[destCapacity..])
    {
      if l.alt && l.base == 16 {
        Put(ZERO);
        Put(if l.uc then 'X' as int else 'x' as int);
      } else if l.alt && l.base == 8 {
        Put(ZERO);
      } else {
        assert written + [] == written;
      }
    }

    /** Filling characters, if they belong here. */
    method PutPad(here: bool, n: int, c: byte)
      requires Valid()
      modifies this, dest
      ensures Valid() && written == old(written) + Pad(here, Max(n, 0), c)
      ensures dest[destCapacity..] == old(dest[destCapacity..])
    {
      if here {
        PutFill(n, c);
      } else {
        assert written + [] == written;
      }
    }

    method Putchw(l: Layout, bf: seq<byte>, bfLen: nat)
      requires Valid() && bfLen <= |bf| && forall i :: 0 <= i < bfLen ==> bf[i] != NUL
      modifies this, dest
      ensures Valid() && written == old(written) + Field(l, bf[..bfLen])
      ensures dest[destCapacity..] == old(dest[destCapacity..])
    {
      hide Valid, Sign, Prefix, Pad, Missing, Zeros, Int;
      var width, prec := Remaining(l, bfLen);
      ghost var fill := Missing(l, bfLen);
      ghost var zeros := Zeros(l, bfLen);
      PutPad(!l.lz && !l.left, width, SPACE);
      PutSign(l);
      PutPrefix(l);
      PutPad(true, prec, ZERO);
      PutPad(l.lz, width, ZERO);
      PutText(bf, bfLen);
      PutPad(!l.lz && l.left, width, SPACE);
      InOrder(old(written), Pad(!l.lz && !l.left, fill, SPACE), Sign(l), Prefix(l), Pad(true, zeros, ZERO),
              Pad(l.lz, fill, ZERO), bf[..bfLen], Pad(!l.lz && l.left, fill, SPACE));
    }
  }

  /** The first lines of `putchw`: what is left of width and precision. */
  method Remaining(l: Layout, bfLen: nat) returns (width: int, prec: int)
    ensures Max(width, 0) == Missing(l, bfLen) && Max(prec, 0) == Zeros(l, bfLen)
  {
    hide Int;
    width, prec := Int(l.width - bfLen), Int(l.prec - bfLen);
    ghost var taken := bfLen;
    if l.sign != NUL {
      IntAgain(l.width - taken, 1);
      width := Int(width - 1);
      taken := taken + 1;
    }
    if l.alt && l.base == 16 {
      IntAgain(l.width - taken, 2);
      width := Int(width - 2);
      taken := taken + 2;
    } else if l.alt && l.base == 8 {
      IntAgain(l.width - taken, 1);
      width := Int(width - 1);
      taken := taken + 1;
    }
    if prec > 0 {
      IntAgain(l.width - taken, prec);
      width := Int(width - prec);
      taken := taken + prec;
    }
    assert taken == Content(l, bfLen);
  }

  lemma InOrder(o: seq<byte>, a: seq<byte>, b: seq<byte>, c: seq<byte>,
                d: seq<byte>, e: seq<byte>, f: seq<byte>, g: seq<byte>)
    ensures o + a + b + c + d + e + f + g == o + (a + b + c + d + e + f + g)
  {
  }

  // ------------------------------------------------------------------- directives

  /** An argument as the caller passed it. */
  datatype Arg = Word(w: int) | Str(s: seq<byte>)

  predicate Args(args: seq<Arg>) {
    forall k :: 0 <= k < |args| && args[k].Str? ==> CString(args[k].s)
  }

  /** `va_arg` for a word; an argument that is missing or a pointer reads as 0. */
  function WordArg(args: seq<Arg>, k: nat): int {
    if k < |args| && args[k].Word? then args[k].w else 0
  }

  /** `va_arg` for a string; an argument that is missing or a word reads as the empty string. */
  function StrArg(args: seq<Arg>, k: nat): (s: seq<byte>)
    requires Args(args)
    ensures CString(s)
  {
    if k < |args| && args[k].Str? then args[k].s else [NUL]
  }

  function Unsigned(w: int, limit: nat): (n: nat)
    requires limit > 0
    ensures n < limit
  {
    w % limit
  }

  /** Where the directive stands: `ch` is the current character, `i` is where `fmt` points, `k` counts arguments. */
  datatype Directive =
    Directive(lz: bool, alt: bool, left: bool, width: int, prec: int, lng: nat, ch: byte, i: nat, k: nat)

  predicate On(d: Directive, fmt: seq<byte>) {
    CString(fmt) && 1 <= d.i <= |fmt| && d.ch == fmt[d.i - 1] && d.lng <= 2
  }

  /** `ch = *(fmt++)` */
  function Advance(d: Directive, fmt: seq<byte>): (d': Directive)
    requires On(d, fmt) && d.ch != NUL
    ensures On(d', fmt) && d'.i == d.i + 1
  {
    d.(ch := fmt[d.i], i := d.i + 1)
  }

  function Flags(d: Directive, fmt: seq<byte>): (d': Directive)
    requires On(d, fmt)
    ensures On(d', fmt) && d.i <= d'.i
    decreases |fmt| - d.i
  {
    if d.ch == MINUS then Flags(Advance(d, fmt).(left := true), fmt)
    else if d.ch == ZERO then Flags(Advance(d, fmt).(lz := true), fmt)
    else if d.ch == '#' as int then Flags(Advance(d, fmt).(alt := true), fmt)
    else d
  }

  predicate IsFlag(c: byte) {
    c == MINUS || c == ZERO || c == '#' as int
  }

  /** The flags are those among the characters up to the first that is none. */
  lemma {:induction false} FlagsRead(d: Directive, fmt: seq<byte>)
    requires On(d, fmt)
    ensures var f := Flags(d, fmt); var run := fmt[d.i - 1..f.i - 1];
      && (forall c :: c in run ==> IsFlag(c)) && !IsFlag(f.ch)
      && f == d.(left := d.left || MINUS in run, lz := d.lz || ZERO in run, alt := d.alt || '#' as int in run,
                 ch := f.ch, i := f.i)
    decreases |fmt| - d.i
  {
    hide Flags;
    FlagStep(d, fmt);
    if IsFlag(d.ch) {
      var e := Noted(d, fmt);
      FlagsRead(e, fmt);
      var f := Flags(e, fmt);
      assert fmt[d.i - 1..f.i - 1] == [d.ch] + fmt[e.i - 1..f.i - 1];
    } else {
      assert fmt[d.i - 1..d.i - 1] == [];
    }
  }

  /** The directive with its current character noted as a flag. */
  function Noted(d: Directive, fmt: seq<byte>): (e: Directive)
    requires On(d, fmt) && IsFlag(d.ch)
    ensures On(e, fmt) && e.i == d.i + 1
  {
    Advance(d, fmt).(left := d.left || d.ch == MINUS, lz := d.lz || d.ch == ZERO, alt := d.alt || d.ch == '#' as int)
  }

  lemma FlagStep(d: Directive, fmt: seq<byte>)
    requires On(d, fmt)
    ensures Flags(d, fmt) == if IsFlag(d.ch) then Flags(Noted(d, fmt), fmt) else d
  {
    hide On;
    if d.ch == MINUS {
      assert Noted(d, fmt) == Advance(d, fmt).(left := true);
    } else if d.ch == ZERO {
      assert Noted(d, fmt) == Advance(d, fmt).(lz := true);
    } else if d.ch == '#' as int {
      assert Noted(d, fmt) == Advance(d, fmt).(alt := true);
    }
  }

  /** `a2d`, with 99 for -1 */
  function A2d(ch: byte): nat {
    if IsXDigit(ch) then DigitOf(ch) else 99
  }

  /** `a2u` in base 10. Its test is `digit > base`, so the number is the longest run of decimal digits and `a` or `A`,
      each of these worth ten, modulo 2^32. */
  function A2u(d: Directive, fmt: seq<byte>): (r: (Directive, nat))
    requires On(d, fmt)
    ensures On(r.0, fmt) && d.i <= r.0.i
  {
    Numeric(d, fmt, RunEnd(fmt, d.i - 1, 11))
  }

  /** The number that ends before `e`, and the directive at `e`. */
  function Numeric(d: Directive, fmt: seq<byte>, e: nat): (Directive, nat)
    requires On(d, fmt) && d.i - 1 <= e < |fmt|
  {
    (d.(ch := fmt[e], i := e + 1), RunValue(fmt, d.i - 1, e, 10) % UINT32_LIMIT)
  }

  lemma {:induction false} RunEndMonotone(s: seq<byte>, i: nat, a: nat, b: nat)
    requires CString(s) && i < |s| && a <= b
    ensures RunEnd(s, i, a) <= RunEnd(s, i, b)
    ensures RunEnd(s, i, a) == RunEnd(s, i, b) <==> !DigitIn(s[RunEnd(s, i, a)], b)
    decreases |s| - i
  {
    if DigitIn(s[i], a) {
      RunEndMonotone(s, i + 1, a, b);
    }
  }

  /** The number read is the decimal number that stands there exactly if no `a` or `A` follows its digits. */
  lemma DecimalExactly(d: Directive, fmt: seq<byte>)
    requires On(d, fmt)
    ensures var e := RunEnd(fmt, d.i - 1, 10);
      A2u(d, fmt) == Numeric(d, fmt, e) <==> fmt[e] != 'a' as int && fmt[e] != 'A' as int
  {
    RunEndMonotone(fmt, d.i - 1, 10, 11);
  }

  const FORMAT_1AD: seq<byte> := [PERCENT, '1' as int, 'a' as int, 'd' as int, NUL]

  /** In `%1ad` the width read is 20, and `d` is the conversion. */
  lemma WidthTwenty(args: seq<Arg>)
    ensures var d := Parse(FORMAT_1AD, 1, args, 0);
      d.width == 20 && d.ch == 'd' as int
  {
    var b := Begin(FORMAT_1AD, 1, 0);
    assert Flags(b, FORMAT_1AD) == b;
    RunOver(FORMAT_1AD, 1, 3, 11);
    assert FORMAT_1AD[1..3] == ['1' as int, 'a' as int];
    assert DigitsOf(FORMAT_1AD[1..3]) == [1] + [10];
    ValueSnoc([1], 10, 10);
    OneDigit(1, 10);
    assert Width(b, FORMAT_1AD, args) == b.(ch := 'd' as int, i := 4, width := 20);
  }

  function Width(d: Directive, fmt: seq<byte>, args: seq<Arg>): (d': Directive)
    requires On(d, fmt)
    ensures On(d', fmt) && d.i <= d'.i
  {
    if d.ch == '*' as int then
      var w := Signed(WordArg(args, d.k), UINT32_LIMIT);
      Advance(d, fmt).(k := d.k + 1, left := d.left || w < 0, width := if w < 0 then Int(-w) else w)
    else if IsDigit(d.ch) then
      var (e, w) := A2u(d, fmt);
      e.(width := Signed(w, UINT32_LIMIT))
    else d
  }

  function Precision(d: Directive, fmt: seq<byte>, args: seq<Arg>): (d': Directive)
    requires On(d, fmt)
    ensures On(d', fmt) && d.i <= d'.i
  {
    if d.ch != '.' as int then d
    else
      var e := Advance(d, fmt);
      if e.ch == '*' as int then
        var p := Signed(WordArg(args, e.k), UINT32_LIMIT);
        Advance(e, fmt).(k := e.k + 1, prec := if p < 0 then -1 else p)
      else if IsDigit(e.ch) then
        var (f, p) := A2u(e, fmt);
        f.(prec := Signed(p, UINT32_LIMIT))
      else e.(prec := 0)
  }

  function Length(d: Directive, fmt: seq<byte>): (d': Directive)
    requires On(d, fmt)
    ensures On(d', fmt) && d.i <= d'.i
  {
    if d.ch == 'z' as int then Advance(d, fmt).(lng := 1)
    else if d.ch == 'l' as int then
      var e := Advance(d, fmt).(lng := 1);
      if e.ch == 'l' as int then Advance(e, fmt).(lng := 2) else e
    else d
  }

  function Begin(fmt: seq<byte>, i: nat, k: nat): (d: Directive)
    requires CString(fmt) && i < |fmt|
    ensures On(d, fmt) && d.i == i + 1
  {
    Directive(false, false, false, 0, -1, 0, fmt[i], i + 1, k)
  }

  /** A directive from the character after its percent sign to its conversion character. */
  function Parse(fmt: seq<byte>, i: nat, args: seq<Arg>, k: nat): (d: Directive)
    requires CString(fmt) && i < |fmt|
    ensures On(d, fmt) && i < d.i
  {
    var f := Flags(Begin(fmt, i, k), fmt);
    var p := Precision(Width(f.(lz := f.lz && !f.left), fmt, args), fmt, args);
    Length(p.(lz := p.lz && p.prec < 0), fmt)
  }

  // ------------------------------------------------------------------ conversions

  /** Text, number of arguments used so far, and the base left behind for a later `%s`. */
  datatype Output = Output(text: seq<byte>, k: nat, base: nat)

  function LayoutOf(d: Directive, uc: bool, sign: byte, base: nat): Layout {
    Layout(d.lz, d.alt, uc, d.left, d.width, if d.prec < 0 then 1 else d.prec, sign, base)
  }

  /** With precision 0 the number 0 has no digits. */
  function NumberText(prec: int, num: nat, base: nat, uc: bool): seq<byte>
    requires 2 <= base <= 16
  {
    if prec == 0 && num == 0 then [] else Text(Digits(num, base), uc)
  }

  function NumberField(l: Layout, num: nat): seq<byte>
    requires 2 <= l.base <= 16
  {
    Field(l, NumberText(l.prec, num, l.base, l.uc))
  }

  function Limit(lng: nat): (limit: nat)
    ensures limit > 0 && limit % 2 == 0
  {
    if lng == 0 then UINT32_LIMIT else ULONG_LIMIT
  }

  /** Length of a string up to its NUL, at most `most`. */
  function TextLength(s: seq<byte>, most: nat): (n: nat)
    requires CString(s)
    ensures n < |s| && n <= most && forall i :: 0 <= i < n ==> s[i] != NUL
    ensures n == most || s[n] == NUL
    decreases |s|
  {
    if most == 0 || s[0] == NUL then 0 else 1 + TextLength(s[1..], most - 1)
  }

  function StringField(d: Directive, s: seq<byte>, base: nat): seq<byte>
    requires CString(s)
  {
    var n := TextLength(s, Unsigned(d.prec, UINT32_LIMIT));
    Field(Layout(d.lz, d.alt, false, d.left, d.width, -1, NUL, base), s[..n])
  }

  function Convert(d: Directive, args: seq<Arg>, base: nat): Output
    requires Args(args)
  {
    var w := WordArg(args, d.k);
    if d.ch == 'u' as int then
      Output(NumberField(LayoutOf(d, false, NUL, 10), Unsigned(w, Limit(d.lng))), d.k + 1, 10)
    else if d.ch == 'd' as int || d.ch == 'i' as int then
      var n := Signed(w, Limit(d.lng));
      Output(NumberField(LayoutOf(d, false, if n < 0 then MINUS else NUL, 10), if n < 0 then -n else n), d.k + 1, 10)
    else if d.ch == 'p' as int then
      Output(NumberField(LayoutOf(d.(alt := true), false, NUL, 16), Unsigned(w, ULONG_LIMIT)), d.k + 1, 16)
    else if d.ch == 'x' as int || d.ch == 'X' as int then
      Output(NumberField(LayoutOf(d, d.ch == 'X' as int, NUL, 16), Unsigned(w, Limit(d.lng))), d.k + 1, 16)
    else if d.ch == 'o' as int then
      Output(NumberField(LayoutOf(d, false, NUL, 8), Unsigned(w, UINT32_LIMIT)), d.k + 1, 8)
    else if d.ch == 'c' as int then
      Output([Unsigned(w, 256)], d.k + 1, base)
    else if d.ch == 's' as int then
      Output(StringField(d, StrArg(args, d.k), base), d.k + 1, base)
    else if d.ch == PERCENT then Output([PERCENT], d.k, base)
    else Output([], d.k, base)
  }

  lemma StaysInside(d: Directive, fmt: seq<byte>)
    requires On(d, fmt) && d.ch != NUL
    ensures d.i < |fmt|
  {
  }

  /** Everything `tfp_format` writes for the rest of the format from `i` on. */
  function Formatted(fmt: seq<byte>, i: nat, args: seq<Arg>, k: nat, base: nat): seq<byte>
    requires CString(fmt) && i < |fmt| && Args(args)
    decreases |fmt| - i
  {
    if fmt[i] == NUL then []
    else if fmt[i] != PERCENT then [fmt[i]] + Formatted(fmt, i + 1, args, k, base)
    else
      hide Convert, Parse, On;
      var d := Parse(fmt, i + 1, args, k);
      if d.ch == NUL then []
      else
        StaysInside(d, fmt);
        var out := Convert(d, args, base);
        out.text + Formatted(fmt, d.i, args, out.k, out.base)
  }

  // -------------------------------------------------------------------- the formatter

  method ReadFlags(d0: Directive, fmt: seq<byte>) returns (d: Directive)
    requires On(d0, fmt)
    ensures d == Flags(d0, fmt) && On(d, fmt)
  {
    d := d0;
    while d.ch == MINUS || d.ch == ZERO || d.ch == '#' as int
      invariant On(d, fmt) && Flags(d, fmt) == Flags(d0, fmt)
      decreases |fmt| - d.i
    {
      if d.ch == MINUS {
        d := Advance(d, fmt).(left := true);
      } else if d.ch == ZERO {
        d := Advance(d, fmt).(lz := true);
      } else {
        d := Advance(d, fmt).(alt := true);
      }
    }
  }

  /** The contract says what is read: the run of characters that the test lets pass, its value in 32 bits, and when
      that is the decimal number that stands there. */
  method ReadNumber(d0: Directive, fmt: seq<byte>) returns (d: Directive, num: nat)
    requires On(d0, fmt)
    ensures On(d, fmt) && (d, num) == A2u(d0, fmt)
    ensures var f := RunEnd(fmt, d0.i - 1, 11);
      d == d0.(ch := fmt[f], i := f + 1) && num == RunValue(fmt, d0.i - 1, f, 10) % UINT32_LIMIT
    ensures var e := RunEnd(fmt, d0.i - 1, 10);
      d == d0.(ch := fmt[e], i := e + 1) && num == RunValue(fmt, d0.i - 1, e, 10) % UINT32_LIMIT
      <==> fmt[e] != 'a' as int && fmt[e] != 'A' as int
  {
    hide DigitOf, IsXDigit, DigitIn, A2d, RunEnd, RunValue;
    d, num := d0, 0;
    ghost var start := d0.i - 1;
    RunValueStep(fmt, start, start, 10);
    DecimalExactly(d0, fmt);
    while A2d(d.ch) <= 10
      invariant On(d, fmt) && start <= d.i - 1 && d == d0.(ch := d.ch, i := d.i)
      invariant RunEnd(fmt, d.i - 1, 11) == RunEnd(fmt, start, 11)
      invariant num == RunValue(fmt, start, d.i - 1, 10) % UINT32_LIMIT
      decreases |fmt| - d.i
    {
      PassesTest(d.ch);
      RunEndStep(fmt, d.i - 1, 11);
      RunValueStep(fmt, start, d.i - 1, 10);
      WrappedTen(RunValue(fmt, start, d.i - 1, 10), A2d(d.ch));
      num := (num * 10 + A2d(d.ch)) % UINT32_LIMIT;
      d := Advance(d, fmt);
    }
    PassesTest(d.ch);
    RunEndStep(fmt, d.i - 1, 11);
  }

  lemma WrappedTen(v: nat, digit: nat)
    ensures (v % UINT32_LIMIT * 10 + digit) % UINT32_LIMIT == (v * 10 + digit) % UINT32_LIMIT
  {
  }

  lemma PassesTest(c: byte)
    ensures A2d(c) <= 10 <==> DigitIn(c, 11)
    ensures A2d(c) <= 10 ==> A2d(c) == DigitOf(c) && c != NUL
  {
  }

  method ReadWidth(d0: Directive, fmt: seq<byte>, args: seq<Arg>) returns (d: Directive)
    requires On(d0, fmt)
    ensures d == Width(d0, fmt, args) && On(d, fmt)
  {
    d := d0;
    if d.ch == '*' as int {
      d := Advance(d, fmt);
      d := d.(width := Signed(WordArg(args, d.k), UINT32_LIMIT), k := d.k + 1);
      if d.width < 0 {
        d := d.(left := true, width := Int(-d.width));
      }
    } else if IsDigit(d.ch) {
      var width: nat;
      d, width := ReadNumber(d, fmt);
      d := d.(width := Signed(width, UINT32_LIMIT));
    }
  }

  method ReadPrecision(d0: Directive, fmt: seq<byte>, args: seq<Arg>) returns (d: Directive)
    requires On(d0, fmt)
    ensures d == Precision(d0, fmt, args) && On(d, fmt)
  {
    d := d0;
    if d.ch == '.' as int {
      d := Advance(d, fmt);
      if d.ch == '*' as int {
        d := Advance(d, fmt);
        var prec := Signed(WordArg(args, d.k), UINT32_LIMIT);
        d := d.(prec := if prec < 0 then -1 else prec, k := d.k + 1);
      } else if IsDigit(d.ch) {
        var prec: nat;
        d, prec := ReadNumber(d, fmt);
        d := d.(prec := Signed(prec, UINT32_LIMIT));
      } else {
        d := d.(prec := 0);
      }
    }
  }

  method ReadDirective(fmt: seq<byte>, i: nat, args: seq<Arg>, k: nat) returns (d: Directive)
    requires CString(fmt) && i < |fmt|
    ensures d == Parse(fmt, i, args, k) && On(d, fmt) && i < d.i
  {
    hide Flags, Width, Precision;
    d := ReadFlags(Begin(fmt, i, k), fmt);
    if d.left {
      d := d.(lz := false);
    }
    d := ReadWidth(d, fmt, args);
    d := ReadPrecision(d, fmt, args);
    if d.prec >= 0 {
      d := d.(lz := false);
    }
    if d.ch == 'z' as int {
      d := Advance(d, fmt).(lng := 1);
    } else if d.ch == 'l' as int {
      d := Advance(d, fmt).(lng := 1);
      if d.ch == 'l' as int {
        d := Advance(d, fmt).(lng := 2);
      }
    }
  }

  /** A number converted into `bf`. */
  method ConvertNumber(p: Param, prec: int, uc: bool, base: nat, num: int, limit: nat)
    requires p.bf.Length == BF_MAX && Printable(limit, base) && limit % 2 == 0
    requires if num < 0 then 0 - limit <= 2 * num else num < limit
    modifies p, p.bf
    ensures p.sign == (if num < 0 then MINUS else NUL) && p.bfLen <= BF_MAX
    ensures p.prec == prec && p.uc == uc && p.base == base
    ensures p.bf[..p.bfLen] == NumberText(prec, if num < 0 then -num else num, base, uc)
    ensures forall i :: 0 <= i < p.bfLen ==> p.bf[i] != NUL
  {
    hide DigitChar, Digits;
    p.base, p.uc, p.prec, p.sign, p.bfLen := base, uc, prec, NUL, 0;
    if num < 0 {
      p.Lli2a(num, limit);
    } else {
      p.Ulli2a(num, limit);
    }
    NumberTextPrintable(prec, if num < 0 then -num else num, base, uc);
    assert p.bf[..p.bfLen] == NumberText(prec, if num < 0 then -num else num, base, uc);
    assert forall i :: 0 <= i < p.bfLen ==> p.bf[i] == p.bf[..p.bfLen][i];
  }

  lemma NumberTextPrintable(prec: int, num: nat, base: nat, uc: bool)
    requires 2 <= base <= 16
    ensures forall i :: 0 <= i < |NumberText(prec, num, base, uc)| ==> NumberText(prec, num, base, uc)[i] != NUL
  {
  }

  /** A number converted and put out. */
  method PutNumber(p: Param, sink: Sink, d: Directive, uc: bool, base: nat, num: int, limit: nat)
    requires sink.Valid() && p.bf.Length == BF_MAX && p.bf != sink.dest
    requires Printable(limit, base) && limit % 2 == 0
    requires if num < 0 then 0 - limit <= 2 * num else num < limit
    modifies p, p.bf, sink, sink.dest
    ensures sink.Valid() && sink.dest[sink.destCapacity..] == old(sink.dest[sink.destCapacity..])
    ensures sink.written == old(sink.written)
      + NumberField(LayoutOf(d, uc, if num < 0 then MINUS else NUL, base), if num < 0 then -num else num)
  {
    hide Field, NumberText;
    ConvertNumber(p, if d.prec < 0 then 1 else d.prec, uc, base, num, limit);
    assert p.bf[..][..p.bfLen] == p.bf[..p.bfLen];
    sink.Putchw(Layout(d.lz, d.alt, p.uc, d.left, d.width, p.prec, p.sign, p.base), p.bf[..], p.bfLen);
  }

  /** A string as far as its NUL and the precision, put out. */
  method PutString(sink: Sink, d: Directive, s: seq<byte>, base: nat)
    requires sink.Valid() && CString(s)
    modifies sink, sink.dest
    ensures sink.Valid() && sink.dest[sink.destCapacity..] == old(sink.dest[sink.destCapacity..])
    ensures sink.written == old(sink.written) + StringField(d, s, base)
  {
    var prec, bfLen := Unsigned(d.prec, UINT32_LIMIT), 0;
    ghost var most := prec;
    assert s[0..] == s;
    while prec != 0 && s[bfLen] != NUL
      invariant bfLen < |s| && prec == most - bfLen && forall i :: 0 <= i < bfLen ==> s[i] != NUL
      invariant TextLength(s, most) == bfLen + TextLength(s[bfLen..], prec)
      decreases prec
    {
      assert s[bfLen..][1..] == s[bfLen + 1..];
      prec := prec - 1;
      bfLen := bfLen + 1;
    }
    sink.Putchw(Layout(d.lz, d.alt, false, d.left, d.width, -1, NUL, base), s, bfLen);
  }

  /** The conversion character of a directive. */
  method PutConversion(p: Param, sink: Sink, d: Directive, args: seq<Arg>, base: nat) returns (k: nat, left: nat)
    requires sink.Valid() && p.bf.Length == BF_MAX && p.bf != sink.dest && Args(args) && d.lng <= 2
    modifies p, p.bf, sink, sink.dest
    ensures sink.Valid() && sink.dest[sink.destCapacity..] == old(sink.dest[sink.destCapacity..])
    ensures sink.written == old(sink.written) + Convert(d, args, base).text
    ensures k == Convert(d, args, base).k && left == Convert(d, args, base).base
  {
    hide NumberField, StringField, Unsigned, Signed;
    k, left := d.k + 1, base;
    var w := WordArg(args, d.k);
    if d.ch == 'u' as int {
      PutNumber(p, sink, d, false, 10, Unsigned(w, Limit(d.lng)), Limit(d.lng));
      left := 10;
    } else if d.ch == 'd' as int || d.ch == 'i' as int {
      PutNumber(p, sink, d, false, 10, Signed(w, Limit(d.lng)), Limit(d.lng));
      left := 10;
    } else if d.ch == 'p' as int {
      PutNumber(p, sink, d.(alt := true), false, 16, Unsigned(w, ULONG_LIMIT), ULONG_LIMIT);
      left := 16;
    } else if d.ch == 'x' as int || d.ch == 'X' as int {
      PutNumber(p, sink, d, d.ch == 'X' as int, 16, Unsigned(w, Limit(d.lng)), Limit(d.lng));
      left := 16;
    } else if d.ch == 'o' as int {
      PutNumber(p, sink, d, false, 8, Unsigned(w, UINT32_LIMIT), UINT32_LIMIT);
      left := 8;
    } else if d.ch == 'c' as int {
      sink.Put(Unsigned(w, 256));
    } else if d.ch == 's' as int {
      PutString(sink, d, StrArg(args, d.k), base);
    } else {
      k := d.k;
      if d.ch == PERCENT {
        sink.Put(PERCENT);
      } else {
        assert sink.written + [] == sink.written;
      }
    }
  }

  /** `tfp_format`: what reaches the sink depends on format and arguments only. `base` is what the uninitialised
      field holds. */
  method TfpFormat(sink: Sink, fmt: seq<byte>, args: seq<Arg>, base: nat)
    requires sink.Valid() && CString(fmt) && Args(args)
    modifies sink, sink.dest
    ensures sink.Valid() && sink.dest[sink.destCapacity..] == old(sink.dest[sink.destCapacity..])
    ensures sink.written == old(sink.written) + Formatted(fmt, 0, args, 0, base)
  {
    hide Convert, Parse;
    var p := new Param();
    var i, k, b := 0, 0, base;
    ghost var all := Formatted(fmt, 0, args, 0, base);
    assert sink.written == old(sink.written) + [];
    ghost var done: seq<byte> := [];
    while fmt[i] != NUL
      invariant sink.Valid() && sink.dest[sink.destCapacity..] == old(sink.dest[sink.destCapacity..])
      invariant i < |fmt| && sink.written == old(sink.written) + done
      invariant done + Formatted(fmt, i, args, k, b) == all
      decreases |fmt| - i
    {
      if fmt[i] != PERCENT {
        sink.Put(fmt[i]);
        Extend(old(sink.written), done, [fmt[i]], Formatted(fmt, i + 1, args, k, b));
        done := done + [fmt[i]];
        i := i + 1;
      } else {
        var d := ReadDirective(fmt, i + 1, args, k);
        if d.ch == NUL {
          return;
        }
        ghost var out := Convert(d, args, b);
        Extend(old(sink.written), done, out.text, Formatted(fmt, d.i, args, out.k, out.base));
        k, b := PutConversion(p, sink, d, args, b);
        done := done + out.text;
        i := d.i;
      }
    }
  }

  lemma Extend(o: seq<byte>, done: seq<byte>, text: seq<byte>, rest: seq<byte>)
    ensures done + (text + rest) == done + text + rest && o + done + text == o + (done + text)
  {
  }

  /** The text that `tfp_vsprintf` writes for a format and arguments. */
  function Written(fmt: seq<byte>, args: seq<Arg>, base: nat): seq<byte>
    requires CString(fmt) && Args(args)
  {
    Formatted(fmt, 0, args, 0, base)
  }

  method TfpVsprintf(fmt: seq<byte>, args: seq<Arg>, base: nat) returns (str: seq<byte>, n: nat)
    requires CString(fmt) && Args(args)
    ensures str == Written(fmt, args, base) + [NUL] && n == |Written(fmt, args, base)|
  {
    var sink := new Sink.Vsprintf();
    TfpFormat(sink, fmt, args, base);
    str := sink.memory + [NUL];
    n := sink.numChars;
  }

  /** Never more than `size` characters change; the text is cut to what fits before the NUL; the result is the length
      of the whole text. */
  method TfpVsnprintf(str: array<byte>, size: nat, fmt: seq<byte>, args: seq<Arg>, base: nat) returns (n: nat)
    requires size <= str.Length && CString(fmt) && Args(args)
    modifies str
    ensures str[size..] == old(str[size..])
    ensures size == 0 ==> n == 0
    ensures size > 0 ==> n == |Written(fmt, args, base)|
    ensures size > 0 ==> var m := if n < size then n else size - 1;
      str[..m] == Written(fmt, args, base)[..m] && str[m] == NUL
  {
    hide Formatted;
    if size < 1 {
      return 0;
    }
    var sink := new Sink.Vsnprintf(str, size);
    TfpFormat(sink, fmt, args, base);
    n := sink.numChars;
    ghost var m := sink.Min(n);
    assert str[..m] == Written(fmt, args, base)[..m];
    assert str[sink.destCapacity..][1..] == str[size..];
    if n < sink.destCapacity {
      str[n] := NUL;
    } else {
      str[sink.destCapacity] := NUL;
    }
    assert str[..m] == Written(fmt, args, base)[..m];
  }

  // --------------------------------------------------------- formatted and read back

  const FORMAT_LU: seq<byte> := [PERCENT, 'l' as int, 'u' as int, NUL]
  const FORMAT_ALT_LX: seq<byte> := [PERCENT, '#' as int, 'l' as int, 'x' as int, NUL]

  lemma ShortPrefix(l: Layout)
    ensures |Prefix(l)| <= 2
  {
  }

  lemma PlainField(alt: bool, base: nat, num: nat)
    requires num < ULONG_LIMIT && (base == 10 || base == 16)
    ensures var l := Layout(false, alt, false, false, 0, 1, NUL, base);
      NumberField(l, num) == Prefix(l) + Text(Digits(num, base), false)
  {
    hide Int, Digits, Fill, Prefix;
    DigitsFit(num, ULONG_LIMIT, base);
    var l := Layout(false, alt, false, false, 0, 1, NUL, base);
    ShortPrefix(l);
    var body := Text(Digits(num, base), false);
    IntOf(1 - |body|);
    IntOf(0 - Content(l, |body|));
    assert 1 <= |body| <= Content(l, |body|) < INT_LIMIT && Zeros(l, |body|) == 0;
    assert Missing(l, |body|) == 0 && Fill(0, ZERO) == [] && Fill(0, SPACE) == [];
    assert [] + [] + Prefix(l) + [] + [] + body + [] == Prefix(l) + body;
  }

  lemma ParseLu(args: seq<Arg>)
    ensures Parse(FORMAT_LU, 1, args, 0) == Directive(false, false, false, 0, -1, 1, 'u' as int, 3, 0)
  {
  }

  lemma ParseAltLx(args: seq<Arg>)
    ensures Parse(FORMAT_ALT_LX, 1, args, 0) == Directive(false, true, false, 0, -1, 1, 'x' as int, 4, 0)
  {
    var b := Begin(FORMAT_ALT_LX, 1, 0);
    var c := Advance(b, FORMAT_ALT_LX).(alt := true);
    assert c.ch == 'l' as int && Flags(c, FORMAT_ALT_LX) == c;
    assert Flags(b, FORMAT_ALT_LX) == c;
  }

  lemma AlreadyUnsigned(num: nat)
    requires num < ULONG_LIMIT
    ensures Unsigned(num, ULONG_LIMIT) == num
  {
  }

  /** A 64-bit number formatted with `%lu` or `%#lx` is read back by `simple_strtoul`, the latter with the base left
      open. */
  lemma FormatThenParse(num: nat, base: nat)
    requires num < ULONG_LIMIT
    ensures Parsed(Written(FORMAT_LU, [Word(num)], base) + [NUL], 10).0 == num
    ensures Parsed(Written(FORMAT_ALT_LX, [Word(num)], base) + [NUL], 0).0 == num
  {
    hide NumberField, Digits, Parsed, Text, Unsigned, Parse;
    var args := [Word(num)];
    AlreadyUnsigned(num);
    ParseLu(args);
    PlainField(false, 10, num);
    PrintParse(num, 10, false, [NUL]);
    assert Formatted(FORMAT_LU, 3, args, 1, 10) == [];
    assert [] + Text(Digits(num, 10), false) + [] == Text(Digits(num, 10), false);
    ParseAltLx(args);
    PlainField(true, 16, num);
    AlternateHexParse(num, false, [NUL]);
    assert Formatted(FORMAT_ALT_LX, 4, args, 1, 16) == [];
    assert [ZERO, 'x' as int] + Text(Digits(num, 16), false) + [] == [ZERO, 'x' as int] + Text(Digits(num, 16), false);
  }
}
