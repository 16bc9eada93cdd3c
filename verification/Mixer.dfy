/** The three ways memmixer.py reverses a 72-bit word pair by pair. */
module Mixer {
  /** `reverse72by2`: swap neighbours, then nibbles, then bytes and groups of three bytes. */
  function Reverse(data: bv72): bv72 {
    var pairs := ((data & 0xcccccccccccccccccc) >> 2) | ((data & 0x333333333333333333) << 2);
    var nibbles := ((pairs & 0xf0f0f0f0f0f0f0f0f0) >> 4) | ((pairs & 0x0f0f0f0f0f0f0f0f0f) << 4);
    var bytes := ((nibbles & 0xff0000ff0000ff0000) >> 16) | (nibbles & 0x00ff0000ff0000ff00)
               | ((nibbles & 0x0000ff0000ff0000ff) << 16);
    ((bytes & 0xffffff000000000000) >> 48) | (bytes & 0x000000ffffff000000) | ((bytes & 0x000000000000ffffff) << 48)
  }

  /** `reverse72by2_special_verify`: the low eight bytes as in a 64-bit word, the top byte apart. */
  function ReverseSpecial(data: bv72): bv72 {
    var pairs := ((data & 0xcccccccccccccccccc) >> 2) | ((data & 0x333333333333333333) << 2);
    var nibbles := ((pairs & 0xf0f0f0f0f0f0f0f0f0) >> 4) | ((pairs & 0x0f0f0f0f0f0f0f0f0f) << 4);
    var msb := nibbles & 0xff0000000000000000;
    var bytes := ((nibbles & 0xff00ff00ff00ff00) >> 8) | ((nibbles & 0x00ff00ff00ff00ff) << 8);
    var halves := ((bytes & 0xffff0000ffff0000) >> 16) | ((bytes & 0x0000ffff0000ffff) << 16);
    var words := ((halves & 0xffffffff00000000) >> 32) | ((halves & 0x00000000ffffffff) << 32);
    (words << 8) | (msb >> 64)
  }

  /** What one round of the loop adds. */
  function Moved(data: bv72, i: bv7): bv72
    requires i <= 70
  {
    ((data & (3 << i)) >> i) << (70 - i)
  }

  /** The pair at bit `70 - i` of the result. */
  function Slot(data: bv72, i: bv7): bv72
    requires i <= 70
  {
    Reverse(data) & (3 << (70 - i))
  }

  /** The positions filled when the loop has come to `i`. */
  function Filled(i: bv7): bv72
    requires i <= 72
  {
    !((1 << (72 - i)) - 1)
  }

  /** The result when the loop has come to `i`. */
  function Prefix(data: bv72, i: bv7): bv72
    requires i <= 72
  {
    Reverse(data) & Filled(i)
  }

  /** The two shift forms agree and undo themselves. */
  lemma ShiftFormsAgree(data: bv72)
    ensures ReverseSpecial(data) == Reverse(data)
  {
  }

  lemma ReverseUndone(data: bv72)
    ensures Reverse(Reverse(data)) == data
  {
  }

  /** The shift form moves the pair at bit `i` to bit `70 - i`. */
  lemma PairMoved(data: bv72, i: bv7)
    requires i <= 70 && i & 1 == 0
    ensures Moved(data, i) == Slot(data, i)
  {
  }

  lemma FilledNext(i: bv7)
    requires i <= 70 && i & 1 == 0
    ensures Filled(i) | (3 << (70 - i)) == Filled(i + 2)
  {
  }

  lemma OneRound(data: bv72, i: bv7)
    requires i <= 70 && i & 1 == 0
    ensures Prefix(data, i) | Moved(data, i) == Prefix(data, i + 2)
  {
    hide Moved, Filled, Reverse;
    PairMoved(data, i);
    FilledNext(i);
    Distribute(Reverse(data), Filled(i), 3 << (70 - i));
  }

  lemma Distribute(a: bv72, b: bv72, c: bv72)
    ensures (a & b) | (a & c) == a & (b | c)
  {
  }

  lemma FilledEnds(data: bv72)
    ensures data & Filled(0) == 0 && data & Filled(72) == data
  {
  }

  lemma PrefixEnds(data: bv72)
    ensures Prefix(data, 0) == 0 && Prefix(data, 72) == Reverse(data)
  {
    hide Reverse, Filled;
    FilledEnds(Reverse(data));
  }

  /** `reverse72by2_normal_verify` */
  method ReverseNormal(data: bv72) returns (result: bv72)
    ensures result == Reverse(data)
  {
    hide Reverse, Moved, Prefix;
    PrefixEnds(data);
    result := 0;
    var i: bv7 := 0;
    while i < 71
      invariant i <= 72 && i & 1 == 0
      invariant result == Prefix(data, i)
      decreases 72 - i
    {
      OneRound(data, i);
      result := result | Moved(data, i);
      i := i + 2;
    }
  }
}
