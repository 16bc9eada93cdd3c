/** What comes out of printf: fields, conversions, and whole formats. */
module Printing {
  import opened Bytes
  import opened Numbers
  import opened Formatting

  // ------------------------------------------------------------------ fields

  /** The field without any filling. */
  function Unfilled(l: Layout, body: seq<byte>): seq<byte> {
    Sign(l) + Prefix(l) + Fill(Zeros(l, |body|), ZERO) + body
  }

  /** Blanks stand before everything, or after it with `-`. */
  lemma SpaceFilled(l: Layout, body: seq<byte>)
    requires !l.lz
    ensures var blanks := Fill(Missing(l, |body|), SPACE);
      Field(l, body) == if l.left then Unfilled(l, body) + blanks else blanks + Unfilled(l, body)
  {
    hide Sign, Prefix, Missing, Zeros;
    var none: seq<byte> := [];
    assert none + Sign(l) == Sign(l);
    var u, blanks := Unfilled(l, body), Fill(Missing(l, |body|), SPACE);
    if l.left {
      assert Field(l, body) == u + blanks;
    } else {
      assert Field(l, body) == blanks + u;
    }
  }

  /** Zeros stand between sign and prefix and the text, whatever `-` says. */
  lemma ZeroFilled(l: Layout, body: seq<byte>)
    requires l.lz
    ensures Field(l, body) == Sign(l) + Prefix(l) + Fill(Zeros(l, |body|) + Missing(l, |body|), ZERO) + body
  {
    hide Sign, Prefix, Missing, Zeros;
    var z, w := Zeros(l, |body|), Missing(l, |body|);
    assert Fill(z + w, ZERO) == Fill(z, ZERO) + Fill(w, ZERO);
  }

  /** With the width 0 there is nothing to fill. */
  lemma NothingFilled(l: Layout, body: seq<byte>)
    requires l.width == 0 && Content(l, |body|) <= INT_LIMIT
    ensures Missing(l, |body|) == 0 && Field(l, body) == Unfilled(l, body)
  {
    hide Int, Content, Field, Zeros;
    IntOf(0 - Content(l, |body|));
    if l.lz {
      ZeroFilled(l, body);
    } else {
      SpaceFilled(l, body);
      var none: seq<byte> := [];
      assert Fill(0, SPACE) == none && Unfilled(l, body) + none == none + Unfilled(l, body) == Unfilled(l, body);
    }
  }

  // ------------------------------------------------------------------ numbers read back

  function NoDigits(z: nat): (digits: seq<nat>)
    ensures |digits| == z && forall i :: 0 <= i < z ==> digits[i] == 0
  {
    seq(z, _ => 0)
  }

  lemma {:induction false} ValueOfZeros(z: nat, digits: seq<nat>, base: nat)
    ensures Value(NoDigits(z) + digits, base) == Value(digits, base)
    decreases |digits|, z
  {
    var all := NoDigits(z) + digits;
    if digits != [] {
      ValueOfZeros(z, digits[..|digits| - 1], base);
      assert all[..|all| - 1] == NoDigits(z) + digits[..|digits| - 1];
    } else if z > 0 {
      ValueOfZeros(z - 1, digits, base);
      assert all[..|all| - 1] == NoDigits(z - 1) + digits;
    }
  }

  /** Any zeros before a numeral are read with it. */
  lemma ZerosParse(z: nat, num: nat, base: nat, uc: bool, rest: seq<byte>)
    requires num < ULONG_LIMIT && base in {8, 10, 16} && CString(rest) && !IsXDigit(rest[0]) && !IsX(rest[0])
    ensures var text := Fill(z, ZERO) + Text(Digits(num, base), uc);
      Parsed(text + rest, base) == (num, |text|)
  {
    hide Value, DigitChar, IsXDigit, DigitOf, IsX, Digits, RunEnd, RunValue;
    var digits := NoDigits(z) + Digits(num, base);
    var text := Fill(z, ZERO) + Text(Digits(num, base), uc);
    ZeroChar(0);
    assert text == Text(digits, uc) by {
      CharOfZero(uc);
    }
    var s := text + rest;
    ValueOfZeros(z, Digits(num, base), base);
    assert s[0..|digits|] == text;
    NoRadixPrefix(s, digits, uc, rest);
    ReadsDigits(s, 0, digits, base, uc);
  }

  lemma CharOfZero(uc: bool)
    ensures DigitChar(0, uc) == ZERO
  {
  }

  lemma NoRadixPrefix(s: seq<byte>, digits: seq<nat>, uc: bool, rest: seq<byte>)
    requires digits != [] && forall i :: 0 <= i < |digits| ==> digits[i] < 16
    requires s == Text(digits, uc) + rest && rest != [] && !IsX(rest[0])
    ensures !IsX(s[1])
  {
    hide DigitChar, IsX;
    if |digits| > 1 {
      CharDigit(digits[1], uc);
    }
  }

  /** Where the digits of a number's field begin. */
  function DigitsAt(l: Layout, body: nat): nat {
    (if l.lz || l.left then 0 else Missing(l, body)) + |Sign(l)| + |Prefix(l)|
  }

  function Leading(l: Layout, body: nat): nat {
    if l.lz || l.left then 0 else Missing(l, body)
  }

  function Trailing(l: Layout, body: nat): nat {
    if l.left && !l.lz then Missing(l, body) else 0
  }

  function Zeroes(l: Layout, body: nat): nat {
    Zeros(l, body) + if l.lz then Missing(l, body) else 0
  }

  /** A field in one line. */
  lemma FieldLine(l: Layout, body: seq<byte>)
    ensures var n := |body|;
      Field(l, body) == Fill(Leading(l, n), SPACE) + (Sign(l) + Prefix(l)) + (Fill(Zeroes(l, n), ZERO) + body)
                      + Fill(Trailing(l, n), SPACE)
  {
    hide Sign, Prefix, Missing, Zeros, Field;
    var none: seq<byte> := Fill(0, SPACE);
    assert none == [];
    var head, z, w := Sign(l) + Prefix(l), Zeros(l, |body|), Missing(l, |body|);
    if l.lz {
      ZeroFilled(l, body);
      InLine(none, head, Fill(z + w, ZERO), body, none);
    } else if l.left {
      SpaceFilled(l, body);
      InLine(none, head, Fill(z, ZERO), body, Fill(w, SPACE));
    } else {
      SpaceFilled(l, body);
      InLine(Fill(w, SPACE), head, Fill(z, ZERO), body, none);
    }
  }

  lemma InLine(a: seq<byte>, b: seq<byte>, c: seq<byte>, d: seq<byte>, e: seq<byte>)
    ensures a + b + (c + d) + e == a + (b + c + d) + e
    ensures a == [] ==> a + b + (c + d) + e == b + c + d + e
    ensures e == [] ==> a + b + (c + d) + e == a + (b + c + d)
    ensures a == [] && e == [] ==> a + b + (c + d) + e == b + c + d
  {
  }

  /** A number's field for every width, precision, value, sign and base: blanks, sign and prefix, and then digits that
      `simple_strtoul` reads back as the number, up to the blanks behind it or what follows. */
  lemma FieldReads(l: Layout, num: nat, rest: seq<byte>)
    requires num < ULONG_LIMIT && l.base in {8, 10, 16} && (l.prec != 0 || num != 0)
    requires CString(rest) && !IsXDigit(rest[0]) && !IsX(rest[0])
    ensures var text := NumberField(l, num); var n := |Digits(num, l.base)|; var at := DigitsAt(l, n);
      && at <= |text| && text[..at] == Fill(Leading(l, n), SPACE) + (Sign(l) + Prefix(l))
      && Parsed(text[at..] + rest, l.base).0 == num
  {
    hide Sign, Prefix, Missing, Zeros, Parsed, Field, Digits, Text, Leading, Trailing, Zeroes;
    var body := Text(Digits(num, l.base), l.uc);
    var text, n := NumberField(l, num), |Digits(num, l.base)|;
    FieldLine(l, body);
    AtIs(l, n);
    var a, b := Fill(Leading(l, n), SPACE), Sign(l) + Prefix(l);
    var c, d := Fill(Zeroes(l, n), ZERO) + body, Fill(Trailing(l, n), SPACE);
    SplitField(text, a, b, c, d);
    BlanksStop(Trailing(l, n), rest);
    ZerosParse(Zeroes(l, n), num, l.base, l.uc, d + rest);
    assert c + d + rest == c + (d + rest);
  }

  lemma AtIs(l: Layout, n: nat)
    ensures DigitsAt(l, n) == Leading(l, n) + |Sign(l) + Prefix(l)|
  {
    hide Sign, Prefix, Missing;
  }

  lemma SplitField(text: seq<byte>, a: seq<byte>, b: seq<byte>, c: seq<byte>, d: seq<byte>)
    requires text == a + b + c + d
    ensures var at := |a| + |b|; text[..at] == a + b && text[at..] == c + d
  {
  }

  lemma BlanksStop(w: nat, rest: seq<byte>)
    requires CString(rest) && !IsXDigit(rest[0]) && !IsX(rest[0])
    ensures var s := Fill(w, SPACE) + rest; CString(s) && !IsXDigit(s[0]) && !IsX(s[0])
  {
  }
}
