/** What a whole format writes: text and directives one after another, and what each conversion makes of its
    argument. */
module Formats {
  import opened Bytes
  import opened Numbers
  import opened Formatting
  import opened Directives
  import opened Printing

  // ------------------------------------------------------------------ formats

  datatype Item = Plain(text: seq<byte>) | Directed(s: Spec)

  predicate Sound(item: Item) {
    match item
    case Plain(text) => PERCENT !in text && NUL !in text
    case Directed(s) => Meant(s)
  }

  function Spelling(item: Item): seq<byte> {
    match item
    case Plain(text) => text
    case Directed(s) => [PERCENT] + Spell(s)
  }

  function Spelled(items: seq<Item>): seq<byte> {
    if items == [] then [] else Spelling(items[0]) + Spelled(items[1..])
  }

  /** One item: text comes out as it stands, a directive as its conversion, which takes its arguments. */
  function ItemShown(item: Item, args: seq<Arg>, k: nat, base: nat): Output
    requires Args(args)
  {
    match item
    case Plain(text) => Output(text, k, base)
    case Directed(s) => Convert(Meaning(s, 0, args, k), args, base)
  }

  /** All items, in order, each with the arguments that those before it have left. */
  function Shown(items: seq<Item>, args: seq<Arg>, k: nat, base: nat): Output
    requires Args(args)
  {
    if items == [] then Output([], k, base)
    else
      var first := ItemShown(items[0], args, k, base);
      var rest := Shown(items[1..], args, first.k, first.base);
      rest.(text := first.text + rest.text)
  }

  lemma Ended(before: seq<byte>, text: seq<byte>)
    ensures CString(before + text + [NUL]) && |before| < |before + text + [NUL]|
  {
  }

  lemma {:induction false} PlainRun(fmt: seq<byte>, i: nat, n: nat, args: seq<Arg>, k: nat, base: nat)
    requires CString(fmt) && i + n < |fmt| && Args(args)
    requires PERCENT !in fmt[i..i + n] && NUL !in fmt[i..i + n]
    ensures Formatted(fmt, i, args, k, base) == fmt[i..i + n] + Formatted(fmt, i + n, args, k, base)
    decreases n
  {
    hide Convert, Parse;
    if n == 0 {
      assert fmt[i..i] + Formatted(fmt, i, args, k, base) == Formatted(fmt, i, args, k, base);
    } else {
      assert fmt[i] == fmt[i..i + n][0];
      assert fmt[i..i + n] == [fmt[i]] + fmt[i + 1..i + n];
      PlainRun(fmt, i + 1, n - 1, args, k, base);
      Grouped([fmt[i]], fmt[i + 1..i + n], Formatted(fmt, i + n, args, k, base));
    }
  }

  lemma Grouped(a: seq<byte>, b: seq<byte>, c: seq<byte>)
    ensures a + (b + c) == a + b + c
  {
  }

  /** The place of a directive does not matter for what it shows. */
  lemma ConvertAnywhere(d: Directive, i: nat, args: seq<Arg>, base: nat)
    requires Args(args)
    ensures Convert(d.(i := i), args, base) == Convert(d, args, base)
  {
    hide NumberField, Field, TextLength, Unsigned, Signed;
  }

  lemma DirectiveRun(fmt: seq<byte>, i: nat, s: Spec, args: seq<Arg>, k: nat, base: nat)
    requires CString(fmt) && i + 1 < |fmt| && fmt[i] == PERCENT && Args(args)
    requires Meant(s) && Parse(fmt, i + 1, args, k) == Meaning(s, i + 1 + |Spell(s)|, args, k)
    ensures var out := Convert(Meaning(s, 0, args, k), args, base);
      i + 1 + |Spell(s)| < |fmt|
      && Formatted(fmt, i, args, k, base) == out.text + Formatted(fmt, i + 1 + |Spell(s)|, args, out.k, out.base)
  {
    hide Convert, Parse, Spell, WidthOf, PrecisionOf, LeftOf, AfterWidth, Longs;
    var d := Parse(fmt, i + 1, args, k);
    NotNul(s);
    StaysInside(d, fmt);
    ConvertAnywhere(Meaning(s, 0, args, k), i + 1 + |Spell(s)|, args, base);
  }

  lemma NotNul(s: Spec)
    requires Meant(s)
    ensures s.conv != NUL
  {
  }

  lemma Suffixed(a: seq<byte>, b: seq<byte>)
    requires CString(b)
    ensures CString(a + b)
  {
  }

  lemma ItemRun(item: Item, before: seq<byte>, tail: seq<byte>, args: seq<Arg>, k: nat, base: nat)
    requires Sound(item) && CString(tail) && Args(args)
    ensures var fmt := before + Spelling(item) + tail; var out := ItemShown(item, args, k, base);
      CString(fmt) && |before| + |Spelling(item)| < |fmt|
      && Formatted(fmt, |before|, args, k, base)
         == out.text + Formatted(fmt, |before| + |Spelling(item)|, args, out.k, out.base)
  {
    hide Convert, Parse, Spell, Meaning, Formatted, Meant;
    var fmt := before + Spelling(item) + tail;
    Suffixed(before + Spelling(item), tail);
    match item
    case Plain(text) =>
      assert fmt[|before|..|before| + |text|] == text;
      PlainRun(fmt, |before|, |text|, args, k, base);
    case Directed(s) =>
      assert fmt == (before + [PERCENT]) + Spell(s) + tail;
      DirectiveRead(s, before + [PERCENT], tail, args, k);
      DirectiveRun(fmt, |before|, s, args, k, base);
  }

  /** What `tfp_format` writes for a format is what its text and directives show, one after another. */
  lemma {:induction false} FormatMeans(items: seq<Item>, before: seq<byte>, args: seq<Arg>, k: nat, base: nat)
    requires Args(args) && forall i :: 0 <= i < |items| ==> Sound(items[i])
    ensures var fmt := before + Spelled(items) + [NUL];
      CString(fmt) && |before| < |fmt|
      && Formatted(fmt, |before|, args, k, base) == Shown(items, args, k, base).text
    decreases |items|
  {
    hide Formatted, Spelling, ItemShown, Sound;
    var fmt := before + Spelled(items) + [NUL];
    Ended(before, Spelled(items));
    if items == [] {
      FormatEnds(fmt, |before|, args, k, base);
    } else {
      var rest, first := items[1..], ItemShown(items[0], args, k, base);
      var next, tail := before + Spelling(items[0]), Spelled(rest) + [NUL];
      Ended([], Spelled(rest));
      assert [] + Spelled(rest) + [NUL] == tail;
      assert fmt == next + Spelled(rest) + [NUL] == next + tail;
      FormatMeans(rest, next, args, first.k, first.base);
      ItemRun(items[0], before, tail, args, k, base);
    }
  }

  lemma FormatEnds(fmt: seq<byte>, i: nat, args: seq<Arg>, k: nat, base: nat)
    requires CString(fmt) && i < |fmt| && fmt[i] == NUL && Args(args)
    ensures Formatted(fmt, i, args, k, base) == []
  {
  }

  /** A format from its beginning. */
  lemma WrittenMeans(items: seq<Item>, args: seq<Arg>, base: nat)
    requires Args(args) && forall i :: 0 <= i < |items| ==> Sound(items[i])
    ensures var fmt := Spelled(items) + [NUL];
      CString(fmt) && Written(fmt, args, base) == Shown(items, args, 0, base).text
  {
    hide Spelled, Shown, Formatted;
    FormatMeans(items, [], args, 0, base);
    assert [] + Spelled(items) + [NUL] == Spelled(items) + [NUL];
  }

  // ------------------------------------------------------------------ conversions

  function WordLimit(lng: nat): nat {
    if lng == 0 then UINT32_LIMIT else ULONG_LIMIT
  }

  lemma SignedIs(w: int, limit: nat, n: int)
    requires limit > 0 && limit % 2 == 0 && 0 - limit <= 2 * n < limit && (w - n) % limit == 0
    ensures Signed(w, limit) == n
  {
    var q := (w - n) / limit;
    assert w == n + q * limit;
    if n >= 0 {
      QuotientIs(w, limit, q, n);
    } else {
      assert w == (n + limit) + (q - 1) * limit by {
        assert (q - 1) * limit == q * limit - limit;
      }
      QuotientIs(w, limit, q - 1, n + limit);
    }
  }

  lemma QuotientIs(w: int, limit: nat, q: int, r: int)
    requires limit > 0 && 0 <= r < limit && w == r + q * limit
    ensures w % limit == r
  {
    var e := w / limit - q;
    assert r - w % limit == e * limit by {
      assert w / limit * limit == q * limit + e * limit;
    }
    SmallMultiple(r - w % limit, limit, e);
  }

  lemma SmallMultiple(x: int, limit: nat, e: int)
    requires x == e * limit && 0 - limit < x < limit && limit > 0
    ensures x == 0
  {
  }

  /** `%d` and `%i` of an argument that holds `n`: the field of its magnitude with a minus sign exactly if it is
      negative, always in base 10. */
  lemma ConvertSigned(d: Directive, args: seq<Arg>, base: nat, n: int)
    requires Args(args) && d.ch in {'d' as int, 'i' as int}
    requires var limit := WordLimit(d.lng); 0 - limit <= 2 * n < limit && (WordArg(args, d.k) - n) % limit == 0
    ensures var l := LayoutOf(d, false, if n < 0 then MINUS else NUL, 10);
      Convert(d, args, base) == Output(NumberField(l, if n < 0 then -n else n), d.k + 1, 10)
  {
    hide NumberField, StringField, Unsigned, Signed, LayoutOf;
    SignedIs(WordArg(args, d.k), Limit(d.lng), n);
  }

  /** Base and letters of a conversion that takes its argument as unsigned. */
  function BaseOf(conv: byte): nat {
    if conv == 'u' as int then 10 else if conv == 'o' as int then 8 else 16
  }

  /** How much of the argument counts: `%o` always takes 32 bits, `%p` 64. */
  function UnsignedLimit(d: Directive): nat {
    if d.ch == 'o' as int then UINT32_LIMIT else if d.ch == 'p' as int then ULONG_LIMIT else WordLimit(d.lng)
  }

  lemma ConvertUnsigned(d: Directive, args: seq<Arg>, base: nat, n: nat)
    requires Args(args) && d.ch in {'u' as int, 'x' as int, 'X' as int, 'o' as int, 'p' as int}
    requires n < UnsignedLimit(d) && (WordArg(args, d.k) - n) % UnsignedLimit(d) == 0
    ensures var e := if d.ch == 'p' as int then d.(alt := true) else d;
      Convert(d, args, base)
      == Output(NumberField(LayoutOf(e, d.ch == 'X' as int, NUL, BaseOf(d.ch)), n), d.k + 1, BaseOf(d.ch))
  {
    hide NumberField, StringField, Signed, LayoutOf;
    var w, limit := WordArg(args, d.k), UnsignedLimit(d);
    QuotientIs(w, limit, (w - n) / limit, n);
  }

  /** The text of a number without width and precision. */
  lemma PlainNumber(d: Directive, uc: bool, sign: byte, base: nat, num: nat)
    requires d.width == 0 && d.prec == -1 && num < ULONG_LIMIT && base in {8, 10, 16}
    ensures var l := LayoutOf(d, uc, sign, base);
      NumberField(l, num) == Sign(l) + Prefix(l) + Text(Digits(num, base), uc)
  {
    hide Digits, Sign, Prefix, Int, Field, Printable;
    var l, body := LayoutOf(d, uc, sign, base), Text(Digits(num, base), uc);
    ShortText(num, base);
    SmallContent(l, |body|);
    IntOf(1 - |body|);
    NothingFilled(l, body);
    assert Fill(0, ZERO) == [];
    assert Sign(l) + Prefix(l) + [] + body == Sign(l) + Prefix(l) + body;
  }

  lemma ShortText(num: nat, base: nat)
    requires num < ULONG_LIMIT && base in {8, 10, 16}
    ensures 1 <= |Digits(num, base)| <= 64
  {
    hide Digits, Pow;
    if |Digits(num, base)| > 64 {
      PowMono(base, 64, |Digits(num, base)| - 1);
      TwoToThe64(base);
      if num < base {
        SingleDigit(num, base);
      } else {
        LeadingPower(num, base);
      }
    }
  }

  lemma TwoToThe64(base: nat)
    requires base in {8, 10, 16}
    ensures ULONG_LIMIT <= Pow(base, 64)
  {
    hide Pow;
    PowMono(base, 25, 64);
    Fifth(base);
    PowAdd(base, 5, 5);
    PowAdd(base, 10, 10);
    PowAdd(base, 20, 5);
    Powers(base);
  }

  lemma Powers(base: nat)
    requires base in {8, 10, 16}
    ensures base * (base * (base * (base * base))) >= 32768
  {
  }

  lemma SmallContent(l: Layout, n: nat)
    requires 1 <= n <= 64 && l.prec == 1
    ensures Content(l, n) <= INT_LIMIT
  {
    hide Int;
    IntOf(1 - n);
  }

  /** What `#` puts before a number. */
  function Marked(alt: bool, uc: bool, base: nat): seq<byte> {
    if alt && base == 16 then [ZERO, if uc then 'X' as int else 'x' as int] else if alt && base == 8 then [ZERO] else []
  }

  /** A number's field for every width, precision, sign and flag of the directive. The precision is the least number of
      digits; the width is filled with blanks in front, with blanks behind for `-`, and with zeros before the digits
      for a leading zero. */
  lemma NumberSpelled(d: Directive, uc: bool, sign: byte, base: nat, num: nat)
    requires 0 <= d.width < INT_LIMIT && -1 <= d.prec < INT_LIMIT - 3 && num < ULONG_LIMIT && base in {8, 10, 16}
    ensures var head := (if sign == NUL then [] else [sign]) + Marked(d.alt, uc, base);
      var digits := if d.prec == 0 && num == 0 then [] else Text(Digits(num, base), uc);
      var zeros := Max(d.prec - |digits|, 0);
      var fill := Max(d.width - (|head| + zeros + |digits|), 0);
      NumberField(LayoutOf(d, uc, sign, base), num)
      == if d.lz then head + Fill(zeros + fill, ZERO) + digits
         else if d.left then head + Fill(zeros, ZERO) + digits + Fill(fill, SPACE)
         else Fill(fill, SPACE) + (head + Fill(zeros, ZERO) + digits)
  {
    hide Digits, Int, Field, Text, Sign, Prefix, Marked, Zeros, Missing, Max, Fill;
    var l := LayoutOf(d, uc, sign, base);
    var digits := if d.prec == 0 && num == 0 then [] else Text(Digits(num, base), uc);
    ShortText(num, base);
    HeadIs(l);
    var head := (if sign == NUL then [] else [sign]) + Marked(d.alt, uc, base);
    Fillings(l, d.prec, |digits|, |head|);
    Arranged(l, digits, head);
  }

  lemma HeadIs(l: Layout)
    ensures Sign(l) + Prefix(l) == (if l.sign == NUL then [] else [l.sign]) + Marked(l.alt, l.uc, l.base)
  {
  }

  lemma Arranged(l: Layout, digits: seq<byte>, head: seq<byte>)
    requires head == Sign(l) + Prefix(l)
    ensures var zeros, fill := Zeros(l, |digits|), Missing(l, |digits|);
      Field(l, digits)
      == if l.lz then head + Fill(zeros + fill, ZERO) + digits
         else if l.left then head + Fill(zeros, ZERO) + digits + Fill(fill, SPACE)
         else Fill(fill, SPACE) + (head + Fill(zeros, ZERO) + digits)
  {
    hide Sign, Prefix, Zeros, Missing, Field;
    if l.lz {
      ZeroFilled(l, digits);
    } else {
      SpaceFilled(l, digits);
    }
  }

  lemma Fillings(l: Layout, prec: int, n: nat, head: nat)
    requires 0 <= l.width < INT_LIMIT && -1 <= prec < INT_LIMIT - 3 && n <= 64
    requires l.prec == (if prec < 0 then 1 else prec) && (prec < 0 ==> n >= 1) && head == |Sign(l) + Prefix(l)|
    ensures var zeros := Max(prec - n, 0);
      Zeros(l, n) == zeros && Missing(l, n) == Max(l.width - (head + zeros + n), 0)
  {
    hide Int;
    IntOf(l.prec - n);
    IntOf(l.width - Content(l, n));
  }

  /** `%d` without width and precision writes the number's sign and numeral. */
  lemma SignedShown(d: Directive, args: seq<Arg>, base: nat, n: int)
    requires Args(args) && d.ch in {'d' as int, 'i' as int} && d.width == 0 && d.prec == -1
    requires var limit := WordLimit(d.lng); 0 - limit <= 2 * n < limit && (WordArg(args, d.k) - n) % limit == 0
    ensures Convert(d, args, base).text == (if n < 0 then [MINUS] else []) + Decimal(if n < 0 then -n else n)
  {
    hide Convert, NumberField, Decimal, Text, Digits;
    ConvertSigned(d, args, base, n);
    PlainNumber(d, false, if n < 0 then MINUS else NUL, 10, if n < 0 then -n else n);
    DecimalIs(if n < 0 then -n else n);
    var none: seq<byte> := [];
    assert (if n < 0 then [MINUS] else none) + none == if n < 0 then [MINUS] else none;
  }

  lemma DecimalIs(n: nat)
    ensures Decimal(n) == Text(Digits(n, 10), false)
  {
  }

  /** The other numbers: `#` puts `0x` before hexadecimal ones and `0` before octal ones, and so does `%p`. */
  lemma UnsignedShown(d: Directive, args: seq<Arg>, base: nat, n: nat)
    requires Args(args) && d.ch in {'u' as int, 'x' as int, 'X' as int, 'o' as int, 'p' as int}
    requires d.width == 0 && d.prec == -1 && n < UnsignedLimit(d) && (WordArg(args, d.k) - n) % UnsignedLimit(d) == 0
    ensures var digits := Text(Digits(n, BaseOf(d.ch)), d.ch == 'X' as int);
      Convert(d, args, base).text
      == if d.ch == 'p' as int || (d.alt && d.ch == 'x' as int) then [ZERO, 'x' as int] + digits
         else if d.alt && d.ch == 'X' as int then [ZERO, 'X' as int] + digits
         else if d.alt && d.ch == 'o' as int then [ZERO] + digits else digits
  {
    hide Convert, NumberField, Text, Digits;
    ConvertUnsigned(d, args, base, n);
    var e := if d.ch == 'p' as int then d.(alt := true) else d;
    PlainNumber(e, d.ch == 'X' as int, NUL, BaseOf(d.ch), n);
    var none: seq<byte> := [];
    var l := LayoutOf(e, d.ch == 'X' as int, NUL, BaseOf(d.ch));
    var digits := Text(Digits(n, BaseOf(d.ch)), d.ch == 'X' as int);
    assert none + Prefix(l) + digits == Prefix(l) + digits && none + digits == digits;
  }

  predicate Known(conv: byte) {
    conv in {'u' as int, 'd' as int, 'i' as int, 'p' as int, 'x' as int, 'X' as int, 'o' as int, 'c' as int, 's' as int,
             PERCENT}
  }

  /** Characters, percent signs, and what is no conversion. */
  lemma OtherShown(d: Directive, args: seq<Arg>, base: nat)
    requires Args(args)
    ensures d.ch == 'c' as int ==> Convert(d, args, base) == Output([WordArg(args, d.k) % 256], d.k + 1, base)
    ensures d.ch == PERCENT ==> Convert(d, args, base) == Output([PERCENT], d.k, base)
    ensures !Known(d.ch) ==> Convert(d, args, base) == Output([], d.k, base)
  {
    hide NumberField, StringField, Signed;
  }

  /** A string comes out up to its NUL, and never more of it than the precision says; blanks fill it to the width. */
  lemma StringShown(d: Directive, args: seq<Arg>, base: nat, text: seq<byte>, rest: seq<byte>)
    requires Args(args) && d.ch == 's' as int && -1 <= d.prec < INT_LIMIT && d.k < |args| && |text| < INT_LIMIT
    requires NUL !in text && args[d.k] == Str(text + rest)
    requires |text| == d.prec || (rest != [] && rest[0] == NUL && (d.prec >= 0 ==> |text| < d.prec))
    requires !d.alt && !d.lz && 0 <= d.width < INT_LIMIT
    ensures var blanks := Fill(Max(d.width - |text|, 0), SPACE);
      Convert(d, args, base) == Output(if d.left then text + blanks else blanks + text, d.k + 1, base)
  {
    hide Convert, Field;
    StringConverted(d, args, base, text, rest);
    TextField(Layout(d.lz, d.alt, false, d.left, d.width, -1, NUL, base), text);
  }

  lemma TextField(l: Layout, text: seq<byte>)
    requires l.prec == -1 && l.sign == NUL && !l.alt && !l.lz && 0 <= l.width < INT_LIMIT && |text| < INT_LIMIT
    ensures var blanks := Fill(Max(l.width - |text|, 0), SPACE);
      Field(l, text) == if l.left then text + blanks else blanks + text
  {
    hide Field, Missing, Int;
    SpaceFilled(l, text);
    TextContent(l, |text|);
    IntOf(l.width - |text|);
    var none: seq<byte> := [];
    assert Fill(0, ZERO) == none && none + none + none + text == text;
  }

  lemma StringConverted(d: Directive, args: seq<Arg>, base: nat, text: seq<byte>, rest: seq<byte>)
    requires Args(args) && d.ch == 's' as int && -1 <= d.prec < INT_LIMIT && d.k < |args| && |text| < INT_LIMIT
    requires NUL !in text && args[d.k] == Str(text + rest)
    requires |text| == d.prec || (rest != [] && rest[0] == NUL && (d.prec >= 0 ==> |text| < d.prec))
    ensures var l := Layout(d.lz, d.alt, false, d.left, d.width, -1, NUL, base);
      Convert(d, args, base) == Output(Field(l, text), d.k + 1, base)
  {
    hide NumberField, Signed, Field, TextLength;
    var s := text + rest;
    StringLength(s, |text|, Unsigned(d.prec, UINT32_LIMIT));
    assert s[..|text|] == text;
  }

  lemma TextContent(l: Layout, n: nat)
    requires l.prec == -1 && l.sign == NUL && !l.alt && n < INT_LIMIT
    ensures Zeros(l, n) == 0 && Content(l, n) == n && Missing(l, n) == Max(Int(l.width - n), 0)
  {
    hide Int;
    IntOf(-1 - n);
  }

  lemma {:induction false} StringLength(s: seq<byte>, n: nat, most: nat)
    requires CString(s) && n < |s| && n <= most && forall i :: 0 <= i < n ==> s[i] != NUL
    requires n == most || s[n] == NUL
    ensures TextLength(s, most) == n
    decreases n
  {
    if n > 0 {
      assert forall i :: 0 <= i < n - 1 ==> s[1..][i] == s[i + 1];
      StringLength(s[1..], n - 1, most - 1);
    }
  }

  // ------------------------------------------------------------------ character by character

  lemma HexDigits()
    ensures Digits(0x30000, 16) == [3, 0, 0, 0, 0]
  {
    assert Digits(0x3, 16) == [3];
    assert Digits(0x30, 16) == [3] + [0];
    assert Digits(0x300, 16) == [3, 0] + [0];
    assert Digits(0x3000, 16) == [3, 0, 0] + [0];
    assert Digits(0x30000, 16) == [3, 0, 0, 0] + [0];
  }

  lemma Eight()
    ensures Decimal(8) == ['8' as int]
  {
    assert Digits(8, 10) == [8];
  }

  lemma AddressFormat()
    ensures var s := Spec([ZERO], Given(8), Absent, Short, 'X' as int);
      Meant(s) && Spelled([Plain([ZERO, 'x' as int]), Directed(s)]) + [NUL]
               == [ZERO, 'x' as int, PERCENT, ZERO, '8' as int, 'X' as int, NUL]
  {
    hide Decimal;
    var s := Spec([ZERO], Given(8), Absent, Short, 'X' as int);
    var items := [Plain([ZERO, 'x' as int]), Directed(s)];
    Eight();
    assert Spell(s) == [ZERO, '8' as int, 'X' as int];
    assert items[1..] == [Directed(s)] && [Directed(s)][1..] == [];
    assert Spelled([]) == [] && Spelled([Directed(s)]) == [PERCENT] + Spell(s) + [];
    assert Spelled(items) == [ZERO, 'x' as int] + ([PERCENT] + Spell(s) + []);
  }

  /** `0x%08X` of 0x30000 writes `0x00030000`. */
  lemma AddressShown(base: nat)
    ensures var fmt: seq<byte> := [ZERO, 'x' as int, PERCENT, ZERO, '8' as int, 'X' as int, NUL];
      CString(fmt)
      && Written(fmt, [Word(0x30000)], base)
      == [ZERO, 'x' as int, ZERO, ZERO, ZERO, '3' as int, ZERO, ZERO, ZERO, ZERO]
  {
    hide Convert, Digits, Text, Int, Field, Spelled, Stops;
    var s := Spec([ZERO], Given(8), Absent, Short, 'X' as int);
    var zero: seq<byte> := [ZERO, 'x' as int];
    var items, args := [Plain(zero), Directed(s)], [Word(0x30000)];
    AddressFormat();
    assert items[1..] == [Directed(s)] && [Directed(s)][1..] == [];
    WrittenMeans(items, args, base);
    IntOf(8);
    AddressField();
    var d := Meaning(s, 0, args, 0);
    ConvertUnsigned(d, args, base, 0x30000);
    assert LayoutOf(d, true, NUL, 16) == Layout(true, false, true, false, 8, 1, NUL, 16);
    assert Shown([], args, 1, 16) == Output([], 1, 16);
    assert Shown([Directed(s)], args, 0, base).text == Convert(d, args, base).text + [];
    assert Shown(items, args, 0, base).text == zero + (Convert(d, args, base).text + []);
  }

  lemma AddressField()
    ensures NumberField(Layout(true, false, true, false, 8, 1, NUL, 16), 0x30000)
         == [ZERO, ZERO, ZERO, '3' as int, ZERO, ZERO, ZERO, ZERO]
  {
    hide Digits, Int, Field;
    HexDigits();
    var l, body := Layout(true, false, true, false, 8, 1, NUL, 16), Text([3, 0, 0, 0, 0], true);
    assert body == ['3' as int, ZERO, ZERO, ZERO, ZERO];
    ZeroFilled(l, body);
    IntOf(1 - 5);
    IntOf(8 - 5);
    assert Zeros(l, 5) == 0 && Missing(l, 5) == 3;
    assert Fill(0 + 3, ZERO) == [ZERO, ZERO, ZERO];
    var none: seq<byte> := [];
    assert none + none + [ZERO, ZERO, ZERO] + body == [ZERO, ZERO, ZERO] + body;
  }
}
