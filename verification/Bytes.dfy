/** Bytes, 32-bit little-endian fields and byte ranges: the vocabulary shared by the other modules. */
module Bytes {
  type byte = x: int | 0 <= x < 256

  /** The state of an erased NOR cell. */
  const ERASED: byte := 0xFF

  const UINT32_LIMIT := 0x1_0000_0000

  /** A `uint32_t` read from four bytes of memory on the little-endian K210. */
  function U32(b: seq<byte>): (n: nat)
    requires |b| == 4
    ensures n < UINT32_LIMIT
  {
    b[0] as int + 0x100 * (b[1] as int) + 0x1_0000 * (b[2] as int) + 0x100_0000 * (b[3] as int)
  }

  /** The four bytes that hold a `uint32_t`. */
  function U32Bytes(n: nat): (b: seq<byte>)
    requires n < UINT32_LIMIT
    ensures |b| == 4 && U32(b) == n
  {
    var n1 := n / 0x100;
    var n2 := n1 / 0x100;
    [n % 0x100, n1 % 0x100, n2 % 0x100, n2 / 0x100]
  }

  lemma U32RoundTrip(b: seq<byte>)
    requires |b| == 4
    ensures U32Bytes(U32(b)) == b
  {
    var n := U32(b);
    assert n / 0x100 == b[1] as int + 0x100 * (b[2] as int) + 0x1_0000 * (b[3] as int);
    assert n / 0x100 / 0x100 == b[2] as int + 0x100 * (b[3] as int);
  }

  /** `k` copies of one byte. */
  function Fill(k: nat, b: byte): (s: seq<byte>)
    ensures |s| == k
    ensures forall i :: 0 <= i < k ==> s[i] == b
  {
    seq(k, _ => b)
  }

  function Joined(bit: nat, h: nat): nat {
    bit + 2 * h
  }

  lemma JoinedParts(bit: nat, h: nat)
    requires bit < 2
    ensures Joined(bit, h) / 2 == h && Joined(bit, h) % 2 == bit
  {
  }

  /** Bitwise AND, one binary digit at a time. */
  function BitAnd(a: nat, b: nat): (r: nat)
    ensures r <= a
  {
    if a == 0 || b == 0 then 0 else Joined(if a % 2 == b % 2 == 1 then 1 else 0, BitAnd(a / 2, b / 2))
  }

  function Pow2(k: nat): (p: nat)
    ensures p > 0
  {
    if k == 0 then 1 else 2 * Pow2(k - 1)
  }

  lemma BelowPow(k: nat)
    requires k > 0
    ensures Pow2(k) >= 2 && (Pow2(k) - 1) / 2 == Pow2(k - 1) - 1 && (Pow2(k) - 1) % 2 == 1
  {
  }

  lemma {:induction false} AndOnes(k: nat, b: nat)
    requires b < Pow2(k)
    ensures BitAnd(Pow2(k) - 1, b) == b
  {
    if k > 0 && b > 0 {
      AndOnes(k - 1, b / 2);
      BelowPow(k);
    }
  }

  /** Binary digit `k`. */
  function BitAt(x: nat, k: nat): (bit: nat)
    ensures bit < 2
  {
    if k == 0 then x % 2 else BitAt(x / 2, k - 1)
  }

  lemma AndStep(a: nat, b: nat)
    ensures BitAnd(a, b) % 2 == (if a % 2 == b % 2 == 1 then 1 else 0) && BitAnd(a, b) / 2 == BitAnd(a / 2, b / 2)
  {
    hide Joined;
    JoinedParts(if a % 2 == b % 2 == 1 then 1 else 0, BitAnd(a / 2, b / 2));
  }

  lemma BitStep(x: nat, k: nat)
    ensures BitAt(x, 0) == x % 2 && (k > 0 ==> BitAt(x, k) == BitAt(x / 2, k - 1))
  {
  }

  /** A bit of the conjunction is set exactly if both are. */
  lemma {:induction false} AndBit(a: nat, b: nat, k: nat)
    ensures BitAt(BitAnd(a, b), k) == 1 <==> BitAt(a, k) == 1 && BitAt(b, k) == 1
  {
    hide BitAnd, BitAt;
    AndStep(a, b);
    BitStep(a, k);
    BitStep(b, k);
    BitStep(BitAnd(a, b), k);
    if k > 0 {
      AndBit(a / 2, b / 2, k - 1);
    }
  }

  /** What programming `b` over `a` leaves in a NOR cell: bits are only ever cleared. */
  function And(a: byte, b: byte): (r: byte)
    ensures r <= a
    ensures a == ERASED ==> r == b
  {
    AndOnes(8, b);
    BitAnd(a, b)
  }
}
