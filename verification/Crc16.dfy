/** The table-driven CRC of crc16.c against shifting in one bit at a time. */
module Crc16 {
  const CRC_POLY_16: bv16 := 0xA001
  const CRC_START_16: bv16 := 0

  function Xor(a: bv16, b: bv16): bv16 {
    a ^ b
  }

  function Half(a: bv16): bv16 {
    a >> 1
  }

  predicate Low(a: bv16) {
    a & 1 != 0
  }

  lemma XorLaws(a: bv16, b: bv16, c: bv16)
    ensures Xor(Xor(a, b), c) == Xor(Xor(a, c), b) == Xor(a, Xor(b, c))
    ensures Xor(a, b) == Xor(b, a) && Xor(a, a) == 0 && Xor(a, 0) == a
  {
  }

  lemma XorParts(a: bv16, b: bv16)
    ensures Low(Xor(a, b)) == (Low(a) != Low(b)) && Half(Xor(a, b)) == Xor(Half(a), Half(b))
  {
  }

  // ------------------------------------------------------------- one bit at a time

  /** The reflected shift register takes in one bit. */
  function BitStep(crc: bv16, bit: bool): bv16 {
    if Low(crc) != bit then Xor(Half(crc), CRC_POLY_16) else Half(crc)
  }

  function Serial(crc: bv16, bits: seq<bool>): bv16
    decreases |bits|
  {
    if bits == [] then crc else Serial(BitStep(crc, bits[0]), bits[1..])
  }

  /** The low `n` bits, lowest first. */
  function LowBits(c: bv16, n: nat): (bits: seq<bool>)
    ensures |bits| == n
    decreases n
  {
    if n == 0 then [] else [Low(c)] + LowBits(Half(c), n - 1)
  }

  /** A message as bits in the order of transmission. */
  function MessageBits(message: seq<bv8>): (bits: seq<bool>)
    ensures |bits| == 8 * |message|
  {
    if message == [] then []
    else MessageBits(message[..|message| - 1]) + LowBits(message[|message| - 1] as bv16, 8)
  }

  /** The CRC of a message. */
  function Crc(message: seq<bv8>): bv16 {
    Serial(CRC_START_16, MessageBits(message))
  }

  lemma {:induction false} SerialConcat(crc: bv16, a: seq<bool>, b: seq<bool>)
    ensures Serial(crc, a + b) == Serial(Serial(crc, a), b)
    decreases |a|
  {
    hide BitStep;
    if a == [] {
      assert a + b == b;
    } else {
      assert (a + b)[1..] == a[1..] + b;
      SerialConcat(BitStep(crc, a[0]), a[1..], b);
    }
  }

  // ---------------------------------------------------------------- eight bits by table

  function Shift(d: bv16, n: nat): bv16
    decreases n
  {
    if n == 0 then d else Shift(Half(d), n - 1)
  }

  lemma StepAbsorbs(crc: bv16, d: bv16, bit: bool)
    ensures BitStep(Xor(crc, d), bit) == Xor(BitStep(crc, bit != Low(d)), Half(d))
  {
    hide Xor, Half, Low;
    XorParts(crc, d);
    XorLaws(Half(crc), Half(d), CRC_POLY_16);
  }

  /** What is in the register may as well come in with the next bits. */
  lemma {:induction false} Absorb(crc: bv16, c: bv16, d: bv16, n: nat)
    ensures Serial(Xor(crc, d), LowBits(c, n)) == Xor(Serial(crc, LowBits(Xor(c, d), n)), Shift(d, n))
    decreases n
  {
    hide BitStep, Xor, Half, Low;
    if n > 0 {
      StepAbsorbs(crc, d, Low(c));
      XorParts(c, d);
      Absorb(BitStep(crc, Low(Xor(c, d))), Half(c), Half(d), n - 1);
    }
  }

  lemma HalfOfShift(c: bv16)
    ensures Half(c) == c >> 1 && Half(c >> 1) == c >> 2 && Half(c >> 2) == c >> 3 && Half(c >> 3) == c >> 4
    ensures Half(c >> 4) == c >> 5 && Half(c >> 5) == c >> 6 && Half(c >> 6) == c >> 7 && Half(c >> 7) == c >> 8
  {
  }

  lemma ShiftEight(d: bv16)
    ensures Shift(d, 8) == High(d)
  {
    hide Half;
    HalfOfShift(d);
    assert Shift(d, 8) == Shift(d >> 4, 4);
  }

  /** `crc >> 8` */
  function High(c: bv16): bv16 {
    c >> 8
  }

  /** `c & 0x00FF` */
  function LowByte(c: bv16): bv16 {
    And(c, 0xFF)
  }

  function And(a: bv16, b: bv16): bv16 {
    a & b
  }

  lemma AndParts(a: bv16, b: bv16)
    ensures Low(And(a, b)) == (Low(a) && Low(b)) && Half(And(a, b)) == And(Half(a), Half(b))
  {
  }

  /** The low `n` bits are all set. */
  predicate Ones(m: bv16, n: nat)
    decreases n
  {
    n == 0 || (Low(m) && Ones(Half(m), n - 1))
  }

  lemma {:induction false} MaskedBits(c: bv16, m: bv16, n: nat)
    requires Ones(m, n)
    ensures LowBits(And(c, m), n) == LowBits(c, n)
    decreases n
  {
    hide And, Low, Half;
    if n > 0 {
      AndParts(c, m);
      MaskedBits(Half(c), Half(m), n - 1);
    }
  }

  lemma EightOnes()
    ensures Ones(0xFF, 8)
  {
    assert Ones(0x0F, 4);
    assert Ones(0xFF, 8) == Ones(0x0F, 4);
  }

  /** The entry of the table for a byte. */
  function Entry(c: bv16): bv16 {
    Serial(0, LowBits(c, 8))
  }

  /** One lookup does the work of eight shifts. */
  lemma Lookup(crc: bv16, c: bv16)
    ensures Serial(crc, LowBits(c, 8)) == Xor(High(crc), Entry(LowByte(Xor(crc, c))))
  {
    hide LowBits, Serial, Xor, High, And, Shift;
    XorLaws(crc, 0, 0);
    XorLaws(0, crc, 0);
    XorLaws(c, crc, 0);
    Absorb(0, c, crc, 8);
    ShiftEight(crc);
    EightOnes();
    MaskedBits(Xor(crc, c), 0xFF, 8);
    XorLaws(Entry(Xor(c, crc)), High(crc), 0);
  }

  class Table {
    var initialised: bool
    const tab: array<bv16>

    ghost predicate Valid()
      reads this, tab
    {
      tab.Length == 256 && (initialised ==> forall k: nat :: k < 256 ==> tab[k] == Entry(k as bv16))
    }

    constructor ()
      ensures Valid() && !initialised && fresh(tab)
    {
      initialised := false;
      tab := new bv16[256](_ => 0);
    }

    /** One entry, bit by bit. */
    method InitEntry(i: bv16) returns (crc: bv16)
      ensures crc == Entry(i)
    {
      crc := 0;
      var c := i;
      for j := 0 to 8
        invariant Serial(0, LowBits(i, 8)) == Serial(crc, LowBits(c, 8 - j))
      {
        Raw(crc, c);
        crc := if (crc ^ c) & 1 != 0 then (crc >> 1) ^ CRC_POLY_16 else crc >> 1;
        c := c >> 1;
      }
    }

    method InitCrc16Tab()
      requires Valid()
      modifies this, tab
      ensures Valid() && initialised
    {
      hide Entry;
      for i := 0 to 256
        invariant forall k: nat :: k < i ==> tab[k] == Entry(k as bv16)
      {
        tab[i] := InitEntry(i as bv16);
      }
      initialised := true;
    }

    /** `input` is null or holds at least `n` bytes. */
    method Crc16(input: array?<bv8>, n: nat) returns (crc: bv16)
      requires Valid() && (input != null ==> n <= input.Length)
      modifies this, tab
      ensures Valid() && initialised
      ensures crc == if input == null then CRC_START_16 else Crc(old(input[..n]))
    {
      if !initialised {
        InitCrc16Tab();
      }
      hide Xor, High, Entry, LowByte, Valid;
      crc := CRC_START_16;
      if input != null {
        for a := 0 to n
          invariant Valid() && initialised
          invariant crc == Crc(input[..a])
        {
          CrcSnoc(input[..a], input[a]);
          assert input[..a + 1] == input[..a] + [input[a]];
          crc := Update(crc, input[a]);
        }
      }
    }

    /** One byte by table. */
    method Update(crc: bv16, b: bv8) returns (next: bv16)
      requires Valid() && initialised
      ensures next == Xor(High(crc), Entry(LowByte(Xor(crc, b as bv16))))
    {
      hide Entry;
      var index := (crc ^ (b as bv16)) & 0x00FF;
      IndexRange(index);
      next := (crc >> 8) ^ tab[index as int];
    }
  }

  lemma Raw(crc: bv16, c: bv16)
    ensures BitStep(crc, Low(c)) == if (crc ^ c) & 1 != 0 then (crc >> 1) ^ CRC_POLY_16 else crc >> 1
  {
    XorParts(crc, c);
  }

  lemma IndexRange(x: bv16)
    requires x & 0xFF == x
    ensures x as int < 256 && (x as int) as bv16 == x
  {
  }

  lemma CrcSnoc(message: seq<bv8>, b: bv8)
    ensures Crc(message + [b]) == Xor(High(Crc(message)), Entry(LowByte(Xor(Crc(message), b as bv16))))
  {
    hide Serial, LowBits, Entry, Xor, High, LowByte;
    assert (message + [b])[..|message|] == message;
    SerialConcat(CRC_START_16, MessageBits(message), LowBits(b as bv16, 8));
    Lookup(Crc(message), b as bv16);
  }

  // ------------------------------------------------------------------- what the CRC detects

  function Append(v: bv16, bit: bool): bv16 {
    (v << 1) | if bit then 1 else 0
  }

  predicate Top(v: bv16) {
    v & 0x8000 != 0
  }

  /** Bits as a number, lowest first. */
  function FromBits(bits: seq<bool>): bv16
    decreases |bits|
  {
    if bits == [] then 0 else Append(FromBits(bits[1..]), bits[0])
  }

  lemma StepBack(crc: bv16, bit: bool, v: bv16)
    requires !Top(v)
    ensures BitStep(crc, bit) == v <==> crc == Append(v, bit)
    ensures Half(Append(v, bit)) == v && Low(Append(v, bit)) == bit
  {
  }

  lemma {:induction false} ShiftAdds(d: bv16, n: nat, m: nat)
    ensures Shift(d, n + m) == Shift(Shift(d, n), m)
    decreases n
  {
    if n > 0 {
      ShiftAdds(Half(d), n - 1, m);
    }
  }

  lemma {:induction false} ShiftZero(n: nat)
    ensures Shift(0, n) == 0
  {
    if n > 0 {
      ShiftZero(n - 1);
    }
  }

  lemma HalfOfTop(w: bv16)
    ensures Half(w >> 8) == w >> 9 && Half(w >> 9) == w >> 10 && Half(w >> 10) == w >> 11 && Half(w >> 11) == w >> 12
    ensures Half(w >> 12) == w >> 13 && Half(w >> 13) == w >> 14 && Half(w >> 14) == w >> 15 && Half(w >> 15) == 0
    ensures w >> 15 == 0 ==> !Top(w)
  {
  }

  lemma ShiftAll(w: bv16)
    ensures Shift(w, 15) == 0 ==> !Top(w)
    ensures Shift(w, 16) == 0
  {
    hide Half, Top;
    ShiftEight(w);
    ShiftAdds(w, 8, 7);
    ShiftAdds(w, 15, 1);
    HalfOfTop(w);
    assert Shift(w >> 8, 7) == Shift(w >> 12, 3);
    assert Shift(w >> 15, 1) == 0;
  }

  lemma {:induction false} FewBits(bits: seq<bool>)
    requires |bits| <= 15
    ensures Shift(FromBits(bits), |bits|) == 0 && !Top(FromBits(bits))
    decreases |bits|
  {
    hide Half, Top, Append;
    if bits == [] {
      ShiftZero(15);
    } else {
      FewBits(bits[1..]);
      StepBack(0, bits[0], FromBits(bits[1..]));
    }
    ShiftAdds(FromBits(bits), |bits|, 15 - |bits|);
    ShiftZero(15 - |bits|);
    ShiftAll(FromBits(bits));
  }

  /** Up to 16 bits clear the register exactly if they are its content, lowest bit first. */
  lemma {:induction false} ClearedIff(crc: bv16, bits: seq<bool>)
    requires |bits| <= 16
    ensures Serial(crc, bits) == 0 <==> crc == FromBits(bits)
    decreases |bits|
  {
    hide BitStep, Append, Top;
    if bits != [] {
      FewBits(bits[1..]);
      StepBack(crc, bits[0], FromBits(bits[1..]));
      ClearedIff(BitStep(crc, bits[0]), bits[1..]);
    }
  }

  /** The bits of a 16-bit number give it back. */
  lemma {:induction false} FromLowBits(c: bv16, n: nat)
    requires Shift(c, n) == 0
    ensures FromBits(LowBits(c, n)) == c
    decreases n
  {
    hide Append, Half, Low;
    if n > 0 {
      FromLowBits(Half(c), n - 1);
      AppendHalf(c);
    }
  }

  lemma AppendHalf(c: bv16)
    ensures Append(Half(c), Low(c)) == c
  {
  }

  /** Two bytes after a message bring the CRC to 0 exactly if they are its CRC, low byte first. */
  lemma ResidueIff(message: seq<bv8>, low: bv8, high: bv8)
    ensures Crc(message + [low, high]) == 0 <==>
      Crc(message) == (low as bv16) | ((high as bv16) << 8)
  {
    hide Serial, LowBits;
    var crc := Crc(message);
    var c := (low as bv16) | ((high as bv16) << 8);
    TwoBytes(message, low, high);
    SerialConcat(CRC_START_16, MessageBits(message), LowBits(c, 16));
    ClearedIff(crc, LowBits(c, 16));
    ShiftAll(c);
    FromLowBits(c, 16);
  }

  lemma {:induction false} LowBitsSplit(c: bv16, n: nat, m: nat)
    ensures LowBits(c, n + m) == LowBits(c, n) + LowBits(Shift(c, n), m)
    decreases n
  {
    if n > 0 {
      LowBitsSplit(Half(c), n - 1, m);
    }
  }

  lemma BytesOfWord(low: bv8, high: bv8)
    ensures var c := (low as bv16) | ((high as bv16) << 8);
      LowByte(c) == low as bv16 && High(c) == high as bv16
  {
  }

  lemma TwoBytes(message: seq<bv8>, low: bv8, high: bv8)
    ensures MessageBits(message + [low, high])
         == MessageBits(message) + LowBits((low as bv16) | ((high as bv16) << 8), 16)
  {
    hide LowBits, LowByte, High;
    var c := (low as bv16) | ((high as bv16) << 8);
    assert (message + [low, high])[..|message| + 1] == message + [low];
    assert (message + [low])[..|message|] == message;
    BytesOfWord(low, high);
    LowBitsSplit(c, 8, 8);
    ShiftEight(c);
    EightOnes();
    MaskedBits(c, 0xFF, 8);
  }

  /** Where two strings of bits differ. */
  function XorBits(u: seq<bool>, v: seq<bool>): (bits: seq<bool>)
    requires |u| == |v|
    ensures |bits| == |u|
  {
    if u == [] then [] else [u[0] != v[0]] + XorBits(u[1..], v[1..])
  }

  lemma LinearStep(a: bv16, b: bv16, p: bool, q: bool)
    ensures BitStep(Xor(a, b), p != q) == Xor(BitStep(a, p), BitStep(b, q))
  {
    hide Xor, Half, Low;
    XorParts(a, b);
    XorLaws(Half(a), Half(b), CRC_POLY_16);
    XorLaws(Half(a), CRC_POLY_16, Half(b));
    XorLaws(CRC_POLY_16, Half(b), CRC_POLY_16);
    XorLaws(Half(a), CRC_POLY_16, Xor(Half(b), CRC_POLY_16));
    XorLaws(Half(b), CRC_POLY_16, CRC_POLY_16);
  }

  /** The register is linear over exclusive or. */
  lemma {:induction false} Linear(a: bv16, b: bv16, u: seq<bool>, v: seq<bool>)
    requires |u| == |v|
    ensures Serial(Xor(a, b), XorBits(u, v)) == Xor(Serial(a, u), Serial(b, v))
    decreases |u|
  {
    hide BitStep, Xor;
    if u != [] {
      LinearStep(a, b, u[0], v[0]);
      Linear(BitStep(a, u[0]), BitStep(b, v[0]), u[1..], v[1..]);
    }
  }

  lemma StepInjective(a: bv16, b: bv16, bit: bool)
    requires a != b
    ensures BitStep(a, bit) != BitStep(b, bit)
  {
    hide BitStep, Xor;
    Unequal(a, b);
    LinearStep(a, b, bit, bit);
    NothingLost(Xor(a, b));
    XorLaws(BitStep(b, bit), 0, 0);
  }

  lemma Unequal(a: bv16, b: bv16)
    requires a != b
    ensures Xor(a, b) != 0
  {
  }

  /** A register that is not clear is not cleared by a 0. */
  lemma NothingLost(x: bv16)
    requires x != 0
    ensures BitStep(x, false) != 0
  {
  }

  /** A difference in the register is never lost again. */
  lemma {:induction false} NeverForgotten(a: bv16, b: bv16, w: seq<bool>)
    requires a != b
    ensures Serial(a, w) != Serial(b, w)
    decreases |w|
  {
    hide BitStep;
    if w != [] {
      StepInjective(a, b, w[0]);
      NeverForgotten(BitStep(a, w[0]), BitStep(b, w[0]), w[1..]);
    }
  }

  lemma {:induction false} BitsBack(bits: seq<bool>)
    requires |bits| <= 16
    ensures LowBits(FromBits(bits), |bits|) == bits
    decreases |bits|
  {
    hide Append, Half, Low, Top;
    if bits != [] {
      FewBits(bits[1..]);
      StepBack(0, bits[0], FromBits(bits[1..]));
      BitsBack(bits[1..]);
    }
  }

  lemma NoBits()
    ensures Half(0) == 0 && !Low(0)
  {
  }

  lemma {:induction false} NoDifference(u: seq<bool>, v: seq<bool>)
    requires |u| == |v| && XorBits(u, v) == LowBits(0, |u|)
    ensures u == v
    decreases |u|
  {
    hide Half, Low;
    if u != [] {
      NoBits();
      var e := XorBits(u, v);
      assert e[0] == (u[0] != v[0]) && e[1..] == XorBits(u[1..], v[1..]);
      assert LowBits(0, |u|) == [Low(0)] + LowBits(Half(0), |u| - 1);
      assert e[0] == Low(0) && e[1..] == LowBits(Half(0), |u| - 1);
      NoDifference(u[1..], v[1..]);
      assert u == [u[0]] + u[1..] && v == [v[0]] + v[1..];
    }
  }

  /** Any error burst of at most 16 bits, wherever it falls, changes the CRC. */
  lemma BurstDetected(s: seq<bv8>, t: seq<bv8>, before: seq<bool>, u: seq<bool>, v: seq<bool>, after: seq<bool>)
    requires MessageBits(s) == before + u + after && MessageBits(t) == before + v + after
    requires |u| == |v| <= 16 && u != v
    ensures Crc(s) != Crc(t)
  {
    hide Xor, Serial;
    var c := Serial(CRC_START_16, before);
    SerialConcat(CRC_START_16, before, u);
    SerialConcat(CRC_START_16, before + u, after);
    SerialConcat(CRC_START_16, before, v);
    SerialConcat(CRC_START_16, before + v, after);
    Linear(c, c, u, v);
    XorLaws(c, 0, 0);
    var e := XorBits(u, v);
    ClearedIff(0, e);
    if Serial(c, u) == Serial(c, v) {
      XorLaws(Serial(c, u), 0, 0);
      BitsBack(e);
      NoDifference(u, v);
    }
    NeverForgotten(Serial(c, u), Serial(c, v), after);
  }

  // ------------------------------------------------------------------- the check value

  lemma NextByte(message: seq<bv8>, b: bv8, crc: bv16, next: bv16)
    requires Crc(message) == crc && Serial(crc, LowBits(b as bv16, 8)) == next
    ensures Crc(message + [b]) == next
  {
    hide Serial, LowBits;
    assert (message + [b])[..|message|] == message;
    SerialConcat(CRC_START_16, MessageBits(message), LowBits(b as bv16, 8));
  }

  lemma FirstDigits()
    ensures Serial(0x0000, LowBits(0x31, 8)) == 0xD4C1
         && Serial(0xD4C1, LowBits(0x32, 8)) == 0x4594
         && Serial(0x4594, LowBits(0x33, 8)) == 0xBA04
  {
  }

  lemma MiddleDigits()
    ensures Serial(0xBA04, LowBits(0x34, 8)) == 0x14BA
         && Serial(0x14BA, LowBits(0x35, 8)) == 0xA455
         && Serial(0xA455, LowBits(0x36, 8)) == 0x29E4
  {
  }

  lemma LastDigits()
    ensures Serial(0x29E4, LowBits(0x37, 8)) == 0x9D68
         && Serial(0x9D68, LowBits(0x38, 8)) == 0x3C9D
         && Serial(0x3C9D, LowBits(0x39, 8)) == 0xBB3D
  {
  }

  /** The digits `123456789` have the CRC 0xBB3D. */
  lemma CheckValue()
    ensures Crc([0x31, 0x32, 0x33, 0x34, 0x35, 0x36, 0x37, 0x38, 0x39]) == 0xBB3D
  {
    hide Serial, LowBits, Crc;
    FirstDigits();
    MiddleDigits();
    LastDigits();
    NothingYet();
    var m: seq<bv8> := [];
    assert [0x31, 0x32, 0x33, 0x34, 0x35, 0x36, 0x37, 0x38, 0x39]
        == m + [0x31] + [0x32] + [0x33] + [0x34] + [0x35] + [0x36] + [0x37] + [0x38] + [0x39];
    NextByte(m, 0x31, 0x0000, 0xD4C1);
    NextByte(m + [0x31], 0x32, 0xD4C1, 0x4594);
    NextByte(m + [0x31] + [0x32], 0x33, 0x4594, 0xBA04);
    NextByte(m + [0x31] + [0x32] + [0x33], 0x34, 0xBA04, 0x14BA);
    NextByte(m + [0x31] + [0x32] + [0x33] + [0x34], 0x35, 0x14BA, 0xA455);
    NextByte(m + [0x31] + [0x32] + [0x33] + [0x34] + [0x35], 0x36, 0xA455, 0x29E4);
    NextByte(m + [0x31] + [0x32] + [0x33] + [0x34] + [0x35] + [0x36], 0x37, 0x29E4, 0x9D68);
    NextByte(m + [0x31] + [0x32] + [0x33] + [0x34] + [0x35] + [0x36] + [0x37], 0x38, 0x9D68, 0x3C9D);
    NextByte(m + [0x31] + [0x32] + [0x33] + [0x34] + [0x35] + [0x36] + [0x37] + [0x38], 0x39, 0x3C9D, 0xBB3D);
  }

  lemma NothingYet()
    ensures Crc([]) == 0
  {
  }
}
