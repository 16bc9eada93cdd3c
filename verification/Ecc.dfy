/** The (72,64) error-detecting code of adjhex.py. */
module Ecc {
  /** `ecc_table`, row by row. */
  const ROW0: seq<bv8> := [0xCE, 0xCB, 0xD3, 0xD5, 0xD6, 0xD9, 0xDA, 0xDC]
  const ROW1: seq<bv8> := [0x23, 0x25, 0x26, 0x29, 0x2A, 0x2C, 0x31, 0x34]
  const ROW2: seq<bv8> := [0x0E, 0x0B, 0x13, 0x15, 0x16, 0x19, 0x1A, 0x1C]
  const ROW3: seq<bv8> := [0xE3, 0xE5, 0xE6, 0xE9, 0xEA, 0xEC, 0xF1, 0xF4]
  const ROW4: seq<bv8> := [0x4F, 0x4A, 0x52, 0x54, 0x57, 0x58, 0x5B, 0x5D]
  const ROW5: seq<bv8> := [0xA2, 0xA4, 0xA7, 0xA8, 0xAB, 0xAD, 0xB0, 0xB5]
  const ROW6: seq<bv8> := [0x8F, 0x8A, 0x92, 0x94, 0x97, 0x98, 0x9B, 0x9D]
  const ROW7: seq<bv8> := [0x62, 0x64, 0x67, 0x68, 0x6B, 0x6D, 0x70, 0x75]
  /** One column for each check bit. */
  const ROW8: seq<bv8> := [0x01, 0x02, 0x04, 0x08, 0x10, 0x20, 0x40, 0x80]

  function Row(r: nat): (row: seq<bv8>)
    requires r < 9
    ensures |row| == 8
  {
    match r
    case 0 => ROW0 case 1 => ROW1 case 2 => ROW2 case 3 => ROW3 case 4 => ROW4
    case 5 => ROW5 case 6 => ROW6 case 7 => ROW7 case _ => ROW8
  }

  /** Data columns 0 to 63, then the check bits' columns. */
  function Column(p: nat): bv8
    requires p < 72
  {
    Row(p / 8)[p % 8]
  }

  const EMPTY_CHECK: bv8 := 0x0C

  /** `word & (1 << i) != 0` */
  predicate Bit(word: nat, i: nat) {
    if i == 0 then word % 2 == 1 else Bit(word / 2, i - 1)
  }

  /** `word ^ (1 << i)` */
  function FlipBit(word: nat, i: nat): nat {
    if i == 0 then (if word % 2 == 1 then word - 1 else word + 1)
    else FlipBit(word / 2, i - 1) * 2 + word % 2
  }

  lemma {:induction false} FlippedBit(word: nat, i: nat, j: nat)
    ensures Bit(FlipBit(word, i), j) == (Bit(word, j) != (i == j))
    decreases i
  {
    if i > 0 && j > 0 {
      FlippedBit(word / 2, i - 1, j - 1);
    }
  }

  /** The check byte over the bits below `n`. */
  function Check(word: nat, n: nat): bv8
    requires n <= 64
  {
    if n == 0 then EMPTY_CHECK
    else Check(word, n - 1) ^ if Bit(word, n - 1) then Column(n - 1) else 0
  }

  method Ecc(word: nat) returns (ecc: bv8)
    ensures ecc == Check(word, 64)
  {
    ecc := EMPTY_CHECK;
    for i := 0 to 64
      invariant ecc == Check(word, i)
    {
      if Bit(word, i) {
        ecc := ecc ^ Column(i);
      }
    }
  }

  // -------------------------------------------------------------- 72 bits on the line

  datatype Code = Code(word: nat, check: bv8)

  function Encoded(word: nat): Code {
    Code(word, Check(word, 64))
  }

  /** What a reader compares. */
  predicate Accepted(c: Code) {
    c.check == Check(c.word, 64)
  }

  function Flip(c: Code, p: nat): Code
    requires p < 72
  {
    if p < 64 then c.(word := FlipBit(c.word, p)) else c.(check := c.check ^ Column(p))
  }

  function FlipAll(c: Code, ps: seq<nat>): Code
    requires forall i :: 0 <= i < |ps| ==> ps[i] < 72
  {
    if ps == [] then c else Flip(FlipAll(c, ps[..|ps| - 1]), ps[|ps| - 1])
  }

  function Syndrome(c: Code): bv8 {
    c.check ^ Check(c.word, 64)
  }

  function Sum(ps: seq<nat>): bv8
    requires forall i :: 0 <= i < |ps| ==> ps[i] < 72
  {
    if ps == [] then 0 else Sum(ps[..|ps| - 1]) ^ Column(ps[|ps| - 1])
  }

  lemma Cancel(a: bv8, b: bv8, c: bv8, d: bv8)
    ensures (a ^ b) ^ c == (a ^ c) ^ b && (a ^ b) ^ b == a && a ^ 0 == a
    ensures a == b <==> a ^ b == 0
    ensures a ^ (b ^ c) == (a ^ b) ^ c
  {
  }

  lemma Swap(a: bv8, b: bv8, c: bv8)
    ensures (a ^ b) ^ c == (a ^ c) ^ b && (a ^ 0) ^ c == (a ^ c) ^ 0 && (a ^ c) ^ c == a
    ensures ((a ^ c) ^ b) ^ c == a ^ b && a ^ 0 == a
  {
  }

  /** One flipped data bit changes the check by its column. */
  lemma {:induction false} CheckOfFlip(word: nat, p: nat, n: nat)
    requires p < 64 && n <= 64
    ensures Check(FlipBit(word, p), n) == if p < n then Check(word, n) ^ Column(p) else Check(word, n)
    decreases n
  {
    hide FlipBit, Bit, Column;
    if n > 0 {
      CheckOfFlip(word, p, n - 1);
      FlippedBit(word, p, n - 1);
      Swap(Check(word, n - 1), Column(n - 1), Column(p));
    }
  }

  lemma SyndromeOfFlip(c: Code, p: nat)
    requires p < 72
    ensures Syndrome(Flip(c, p)) == Syndrome(c) ^ Column(p)
  {
    hide Check, Column;
    if p < 64 {
      CheckOfFlip(c.word, p, 64);
      Cancel(c.check, Check(c.word, 64), Column(p), 0);
    } else {
      Cancel(c.check, Column(p), Check(c.word, 64), 0);
    }
  }

  lemma {:induction false} SyndromeOfFlips(c: Code, ps: seq<nat>)
    requires forall i :: 0 <= i < |ps| ==> ps[i] < 72
    ensures Syndrome(FlipAll(c, ps)) == Syndrome(c) ^ Sum(ps)
    decreases |ps|
  {
    hide Syndrome, Flip, Column;
    if ps == [] {
      Cancel(Syndrome(c), 0, 0, 0);
    } else {
      var init, p := ps[..|ps| - 1], ps[|ps| - 1];
      SyndromeOfFlips(c, init);
      SyndromeOfFlip(FlipAll(c, init), p);
      Cancel(Syndrome(c), Sum(init), Column(p), 0);
    }
  }

  /** Any flips whatever go unnoticed exactly if their columns cancel, whatever the word. */
  lemma UnnoticedIff(word: nat, ps: seq<nat>)
    requires forall i :: 0 <= i < |ps| ==> ps[i] < 72
    ensures Accepted(FlipAll(Encoded(word), ps)) <==> Sum(ps) == 0
  {
    hide Check, FlipAll, Sum;
    SyndromeOfFlips(Encoded(word), ps);
    var c := FlipAll(Encoded(word), ps);
    Cancel(Check(word, 64), Check(word, 64), 0, 0);
    Cancel(c.check, Check(c.word, 64), 0, 0);
    Cancel(0, Sum(ps), 0, 0);
  }

  // ----------------------------------------------------------------- the columns

  lemma ColumnInRow(r: nat, j: nat)
    requires r < 9 && j < 8
    ensures 8 * r + j < 72 && Column(8 * r + j) == Row(r)[j]
  {
    hide Row;
    assert (8 * r + j) / 8 == r && (8 * r + j) % 8 == j;
  }

  /** The row a column stands in: the top three bits tell the data rows apart. */
  function RowOf(c: bv8): nat {
    if c in {0x01, 0x02, 0x04, 0x08, 0x10, 0x20, 0x40, 0x80} then 8
    else if c & 0xE0 == 0xC0 then 0 else if c & 0xE0 == 0x20 then 1 else if c & 0xE0 == 0x00 then 2
    else if c & 0xE0 == 0xE0 then 3 else if c & 0xE0 == 0x40 then 4 else if c & 0xE0 == 0xA0 then 5
    else if c & 0xE0 == 0x80 then 6 else 7
  }

  predicate OddLow(c: bv8) {
    (c & 1 != 0) != ((c & 2 != 0) != ((c & 4 != 0) != (c & 8 != 0)))
  }

  predicate OddHigh(c: bv8) {
    (c & 16 != 0) != ((c & 32 != 0) != ((c & 64 != 0) != (c & 128 != 0)))
  }

  /** An odd number of bits is set. */
  predicate Odd(c: bv8) {
    OddLow(c) != OddHigh(c)
  }

  /** The entries of row `r` differ from each other and show which row they belong to. */
  predicate GoodRow(row: seq<bv8>, r: nat)
    requires |row| == 8
  {
    && (forall j :: 0 <= j < 8 ==> RowOf(row[j]) == r)
    && forall i, j :: 0 <= i < j < 8 ==> row[i] != row[j]
  }

  /** The entries of a row are odd. */
  predicate OddRow(row: seq<bv8>)
    requires |row| == 8
  {
    forall j :: 0 <= j < 8 ==> Odd(row[j])
  }

  lemma GoodRow0()
    ensures GoodRow(ROW0, 0)
  {
  }

  lemma OddRow0()
    ensures OddRow(ROW0)
  {
  }

  lemma GoodRow1()
    ensures GoodRow(ROW1, 1)
  {
  }

  lemma OddRow1()
    ensures OddRow(ROW1)
  {
  }

  lemma GoodRow2()
    ensures GoodRow(ROW2, 2)
  {
  }

  lemma OddRow2()
    ensures OddRow(ROW2)
  {
  }

  lemma GoodRow3()
    ensures GoodRow(ROW3, 3)
  {
  }

  lemma OddRow3()
    ensures OddRow(ROW3)
  {
  }

  lemma GoodRow4()
    ensures GoodRow(ROW4, 4)
  {
  }

  lemma OddRow4()
    ensures OddRow(ROW4)
  {
  }

  lemma GoodRow5()
    ensures GoodRow(ROW5, 5)
  {
  }

  lemma OddRow5()
    ensures OddRow(ROW5)
  {
  }

  lemma GoodRow6()
    ensures GoodRow(ROW6, 6)
  {
  }

  lemma OddRow6()
    ensures OddRow(ROW6)
  {
  }

  lemma GoodRow7()
    ensures GoodRow(ROW7, 7)
  {
  }

  lemma OddRow7()
    ensures OddRow(ROW7)
  {
  }

  lemma GoodRow8()
    ensures GoodRow(ROW8, 8)
  {
  }

  lemma OddRow8()
    ensures OddRow(ROW8)
  {
  }

  lemma GoodRows(r: nat)
    requires r < 9
    ensures GoodRow(Row(r), r)
  {
    hide GoodRow;
    GoodRow0(); GoodRow1(); GoodRow2(); GoodRow3(); GoodRow4(); GoodRow5(); GoodRow6(); GoodRow7(); GoodRow8();
  }

  lemma OddRows(r: nat)
    requires r < 9
    ensures OddRow(Row(r))
  {
    hide OddRow;
    OddRow0(); OddRow1(); OddRow2(); OddRow3(); OddRow4(); OddRow5(); OddRow6(); OddRow7(); OddRow8();
  }

  lemma ColumnsOdd(p: nat)
    requires p < 72
    ensures Odd(Column(p))
  {
    hide Odd, Row, Column;
    ColumnInRow(p / 8, p % 8);
    OddRows(p / 8);
  }

  lemma RowsApart(r: nat, i: nat, s: nat, j: nat)
    requires r < 9 && i < 8 && s < 9 && j < 8 && (r, i) != (s, j)
    ensures Row(r)[i] != Row(s)[j]
  {
    hide Row, RowOf;
    GoodRows(r);
    GoodRows(s);
  }

  lemma ColumnsDistinct(p: nat, q: nat)
    requires p < 72 && q < 72 && p != q
    ensures Column(p) != Column(q)
  {
    hide Row, Column;
    var r, i, s, j := p / 8, p % 8, q / 8, q % 8;
    assert p == 8 * r + i && q == 8 * s + j;
    ColumnInRow(r, i);
    ColumnInRow(s, j);
    RowsApart(r, i, s, j);
  }

  // --------------------------------------------------------------- the check bits

  /** Which data bits each check bit is the parity of, bits 0 to 7 first. */
  const MASKS: seq<seq<bv8>> := [
    [0x2E, 0x4B, 0x2E, 0x4B, 0xD1, 0xB4, 0xD1, 0xB4],
    [0x57, 0x15, 0x57, 0x15, 0x57, 0x15, 0x57, 0x15],
    [0x99, 0xA6, 0x99, 0xA6, 0x99, 0xA6, 0x99, 0xA6],
    [0xE3, 0x38, 0xE3, 0x38, 0xE3, 0x38, 0xE3, 0x38],
    [0xFC, 0xC0, 0xFC, 0xC0, 0xFC, 0xC0, 0xFC, 0xC0],
    [0x00, 0xFF, 0x00, 0xFF, 0x00, 0xFF, 0x00, 0xFF],
    [0xFF, 0x00, 0x00, 0xFF, 0xFF, 0x00, 0x00, 0xFF],
    [0xFF, 0x00, 0x00, 0xFF, 0x00, 0xFF, 0xFF, 0x00]]

  /** `1 << j` */
  function Power(j: nat): (power: bv8)
    requires j < 8
  {
    ROW8[j]
  }

  predicate InMask(j: nat, p: nat)
    requires j < 8 && p < 64
  {
    MASKS[j][p / 8] & Power(p % 8) != 0
  }

  /** Whether an odd number of the bits below `n` in mask `j` are set. */
  predicate Parity(word: nat, j: nat, n: nat)
    requires j < 8 && n <= 64
  {
    n > 0 && Parity(word, j, n - 1) != (InMask(j, n - 1) && Bit(word, n - 1))
  }

  /** Row `r` of the table, read by columns, is row `r` of the masks. */
  predicate Transposed(r: nat, j: nat)
    requires r < 8 && j < 8
  {
    forall i :: 0 <= i < 8 ==> ((Row(r)[i] & Power(j) != 0) <==> (MASKS[j][r] & Power(i) != 0))
  }

  lemma TransposedRow0(j: nat)
    requires j < 8
    ensures Transposed(0, j)
  {
    assert Row(0) == ROW0;
  }

  lemma TransposedRow1(j: nat)
    requires j < 8
    ensures Transposed(1, j)
  {
    assert Row(1) == ROW1;
  }

  lemma TransposedRow2(j: nat)
    requires j < 8
    ensures Transposed(2, j)
  {
    assert Row(2) == ROW2;
  }

  lemma TransposedRow3(j: nat)
    requires j < 8
    ensures Transposed(3, j)
  {
    assert Row(3) == ROW3;
  }

  lemma TransposedRow4(j: nat)
    requires j < 8
    ensures Transposed(4, j)
  {
    assert Row(4) == ROW4;
  }

  lemma TransposedRow5(j: nat)
    requires j < 8
    ensures Transposed(5, j)
  {
    assert Row(5) == ROW5;
  }

  lemma TransposedRow6(j: nat)
    requires j < 8
    ensures Transposed(6, j)
  {
    assert Row(6) == ROW6;
  }

  lemma TransposedRow7(j: nat)
    requires j < 8
    ensures Transposed(7, j)
  {
    assert Row(7) == ROW7;
  }

  lemma TransposedRows(r: nat, j: nat)
    requires r < 8 && j < 8
    ensures Transposed(r, j)
  {
    hide Transposed;
    TransposedRow0(j); TransposedRow1(j); TransposedRow2(j); TransposedRow3(j);
    TransposedRow4(j); TransposedRow5(j); TransposedRow6(j); TransposedRow7(j);
  }

  lemma ColumnInMask(p: nat, j: nat)
    requires p < 64 && j < 8
    ensures Column(p) & Power(j) != 0 <==> InMask(j, p)
  {
    hide Row, Power, Column;
    var r, i := p / 8, p % 8;
    ColumnInRow(r, i);
    TransposedRows(r, j);
    assert Row(r)[i] & Power(j) != 0 <==> MASKS[j][r] & Power(i) != 0;
  }

  lemma BitOfSum(a: bv8, b: bv8, j: nat)
    requires j < 8
    ensures (a ^ b) & Power(j) != 0 <==> ((a & Power(j) != 0) != (b & Power(j) != 0))
    ensures (0 as bv8) & Power(j) == 0
  {
  }

  /** Each check bit is the parity of the data bits in its mask, turned around for bits 2 and 3. */
  lemma {:induction false} ParityMasks(word: nat, j: nat, n: nat)
    requires j < 8 && n <= 64
    ensures Check(word, n) & Power(j) != 0 <==> Parity(word, j, n) != (j == 2 || j == 3)
    decreases n
  {
    hide Bit, Column, InMask;
    if n > 0 {
      ParityMasks(word, j, n - 1);
      ColumnInMask(n - 1, j);
      BitOfSum(Check(word, n - 1), if Bit(word, n - 1) then Column(n - 1) else 0, j);
    }
  }

  // --------------------------------------------------------------- parity of a sum

  lemma OddLowSum(a: bv8, b: bv8)
    ensures OddLow(a ^ b) == (OddLow(a) != OddLow(b))
  {
    assert ((a ^ b) & 1 != 0) == ((a & 1 != 0) != (b & 1 != 0));
    assert ((a ^ b) & 2 != 0) == ((a & 2 != 0) != (b & 2 != 0));
    assert ((a ^ b) & 4 != 0) == ((a & 4 != 0) != (b & 4 != 0));
    assert ((a ^ b) & 8 != 0) == ((a & 8 != 0) != (b & 8 != 0));
  }

  lemma OddHighSum(a: bv8, b: bv8)
    ensures OddHigh(a ^ b) == (OddHigh(a) != OddHigh(b))
  {
    assert ((a ^ b) & 16 != 0) == ((a & 16 != 0) != (b & 16 != 0));
    assert ((a ^ b) & 32 != 0) == ((a & 32 != 0) != (b & 32 != 0));
    assert ((a ^ b) & 64 != 0) == ((a & 64 != 0) != (b & 64 != 0));
    assert ((a ^ b) & 128 != 0) == ((a & 128 != 0) != (b & 128 != 0));
  }

  lemma OddSum(a: bv8, b: bv8)
    ensures Odd(a ^ b) == (Odd(a) != Odd(b))
  {
    hide OddLow, OddHigh;
    OddLowSum(a, b);
    OddHighSum(a, b);
  }

  // --------------------------------------------------------------- distance four

  lemma NothingIsEven()
    ensures !Odd(0)
  {
  }

  /** The columns of any flips add up to odd weight exactly if the flips are odd in number. */
  lemma {:induction false} SumParity(ps: seq<nat>)
    requires forall i :: 0 <= i < |ps| ==> ps[i] < 72
    ensures Odd(Sum(ps)) <==> |ps| % 2 == 1
    decreases |ps|
  {
    hide Odd, Column;
    NothingIsEven();
    if ps != [] {
      var init, p := ps[..|ps| - 1], ps[|ps| - 1];
      SumParity(init);
      ColumnsOdd(p);
      OddSum(Sum(init), Column(p));
    }
  }

  /** Every odd number of flips is rejected. */
  lemma OddFlipsRejected(word: nat, ps: seq<nat>)
    requires forall i :: 0 <= i < |ps| ==> ps[i] < 72
    requires |ps| % 2 == 1
    ensures !Accepted(FlipAll(Encoded(word), ps))
  {
    hide Accepted, FlipAll, Sum;
    SumParity(ps);
    UnnoticedIff(word, ps);
    NothingIsEven();
  }

  lemma SumOfTwo(p: nat, q: nat)
    requires p < 72 && q < 72
    ensures Sum([p, q]) == Column(p) ^ Column(q)
  {
    hide Column;
    assert [p, q][..1] == [p] && [p][..0] == [];
    assert Sum([p]) == 0 ^ Column(p);
    Cancel(0, Column(p), 0, 0);
    Cancel(Column(p), 0, 0, 0);
  }

  /** Any one, two or three flips among the 72 bits are rejected: the code has distance at least four. */
  lemma FewFlipsRejected(word: nat, ps: seq<nat>)
    requires 1 <= |ps| <= 3
    requires forall i :: 0 <= i < |ps| ==> ps[i] < 72
    requires forall i, j :: 0 <= i < j < |ps| ==> ps[i] != ps[j]
    ensures !Accepted(FlipAll(Encoded(word), ps))
  {
    hide Accepted, FlipAll, Sum, Column;
    if |ps| == 2 {
      assert ps == [ps[0], ps[1]];
      SumOfTwo(ps[0], ps[1]);
      ColumnsDistinct(ps[0], ps[1]);
      Cancel(Column(ps[0]), Column(ps[1]), 0, 0);
      UnnoticedIff(word, ps);
    } else {
      OddFlipsRejected(word, ps);
    }
  }

  /** Four flips may pass: data bits 0 and 16 and the two top check bits, in any word. */
  lemma FourFlipsPass(word: nat)
    ensures Accepted(FlipAll(Encoded(word), [0, 16, 70, 71]))
  {
    hide Accepted, FlipAll;
    var ps: seq<nat> := [0, 16, 70, 71];
    ColumnInRow(0, 0);
    ColumnInRow(2, 0);
    ColumnInRow(8, 6);
    ColumnInRow(8, 7);
    SumOfTwo(0, 16);
    assert ps[..3] == [0, 16, 70] && ps[..3][..2] == [0, 16];
    UnnoticedIff(word, ps);
  }
}
