/** Cipher block chaining over an abstract 16-byte block cipher: kflash.py's `AES_128_CBC`
    and the padding and encryption of a firmware file. */
module Cbc {
  import opened Bytes
  import opened Options

  type Block = s: seq<byte> | |s| == 16 witness Fill(16, 0)
  type Cipher = Block -> Block

  const ZERO_IV: Block := Fill(16, 0)

  /** Bitwise exclusive or, one binary digit at a time. */
  function BitXor(a: nat, b: nat): nat {
    if a == 0 && b == 0 then 0 else Joined((a + b) % 2, BitXor(a / 2, b / 2))
  }

  lemma {:induction false} BitXorBound(a: nat, b: nat, k: nat)
    requires a < Pow2(k) && b < Pow2(k)
    ensures BitXor(a, b) < Pow2(k)
  {
    if k > 0 {
      BitXorBound(a / 2, b / 2, k - 1);
    }
  }

  lemma ParityUndo(a: nat, b: nat, x: nat)
    requires x % 2 == (a + b) % 2
    ensures (x + b) % 2 == a % 2
  {
  }

  lemma BitXorParts(a: nat, b: nat)
    ensures BitXor(a, b) % 2 == (a + b) % 2 && BitXor(a, b) / 2 == BitXor(a / 2, b / 2)
    ensures a == b == 0 ==> BitXor(a, b) == 0
  {
    hide Joined;
    JoinedParts((a + b) % 2, BitXor(a / 2, b / 2));
  }

  lemma {:induction false} BitXorUndo(a: nat, b: nat)
    ensures BitXor(BitXor(a, b), b) == a
  {
    hide BitXor;
    var x := BitXor(a, b);
    BitXorParts(a, b);
    BitXorParts(x, b);
    if a != 0 || b != 0 {
      BitXorUndo(a / 2, b / 2);
      ParityUndo(a, b, x);
    }
  }

  function Xor(a: byte, b: byte): byte {
    BitXorBound(a, b, 8);
    BitXor(a, b)
  }

  /** A bit of the exclusive or is set exactly if the bits differ. */
  lemma {:induction false} XorBit(a: nat, b: nat, k: nat)
    ensures BitAt(BitXor(a, b), k) == (BitAt(a, k) + BitAt(b, k)) % 2
  {
    hide BitXor, BitAt;
    BitXorParts(a, b);
    BitStep(a, k);
    BitStep(b, k);
    BitStep(BitXor(a, b), k);
    ParityOfSum(a, b);
    if k > 0 {
      XorBit(a / 2, b / 2, k - 1);
    }
  }

  lemma ParityOfSum(a: nat, b: nat)
    ensures (a + b) % 2 == (a % 2 + b % 2) % 2
  {
  }

  lemma ParityDifference(d: nat, x: nat, y: nat, u: nat, v: nat)
    requires u % 2 == (d + x) % 2 && v % 2 == (d + y) % 2
    ensures (u + v) % 2 == (x + y) % 2
  {
  }

  lemma SameHalves(u: nat, v: nat)
    requires u % 2 == v % 2 && u / 2 == v / 2
    ensures u == v
  {
  }

  lemma {:induction false} BitXorDifference(d: nat, x: nat, y: nat)
    ensures BitXor(BitXor(d, x), BitXor(d, y)) == BitXor(x, y)
    decreases d + x + y
  {
    hide BitXor;
    var u, v := BitXor(d, x), BitXor(d, y);
    BitXorParts(d, x);
    BitXorParts(d, y);
    BitXorParts(u, v);
    BitXorParts(x, y);
    if d + x + y > 0 {
      BitXorDifference(d / 2, x / 2, y / 2);
      ParityDifference(d, x, y, u, v);
      SameHalves(BitXor(u, v), BitXor(x, y));
    }
  }

  lemma {:induction false} BitXorSelf(x: nat)
    ensures BitXor(x, x) == 0
  {
    hide BitXor;
    BitXorParts(x, x);
    if x > 0 {
      BitXorSelf(x / 2);
    }
  }

  function XorBlock(a: Block, b: Block): Block {
    seq(16, i requires 0 <= i < 16 => Xor(a[i], b[i]))
  }

  lemma XorBlockUndo(a: Block, b: Block)
    ensures XorBlock(XorBlock(a, b), b) == a
  {
    forall i | 0 <= i < 16
      ensures XorBlock(XorBlock(a, b), b)[i] == a[i]
    {
      BitXorUndo(a[i], b[i]);
    }
  }

  // ---------------------------------------------------------------- chaining

  /** CBC encryption of the whole blocks of `data` (section 6.2 of NIST SP 800-38A). */
  function Encrypted(enc: Cipher, iv: Block, data: seq<byte>): (r: seq<byte>)
    ensures |r| == |data| / 16 * 16
    decreases |data|
  {
    if |data| < 16 then []
    else
      var c := enc(XorBlock(data[..16], iv));
      c + Encrypted(enc, c, data[16..])
  }

  function Decrypted(dec: Cipher, iv: Block, data: seq<byte>): (r: seq<byte>)
    ensures |r| == |data| / 16 * 16
    decreases |data|
  {
    if |data| < 16 then []
    else XorBlock(dec(data[..16]), iv) + Decrypted(dec, data[..16], data[16..])
  }

  /** Decryption undoes encryption over any number of blocks. */
  lemma {:induction false} DecryptedEncrypted(enc: Cipher, dec: Cipher, iv: Block, data: seq<byte>)
    requires forall b: Block :: dec(enc(b)) == b
    requires |data| % 16 == 0
    ensures Decrypted(dec, iv, Encrypted(enc, iv, data)) == data
    decreases |data|
  {
    if |data| >= 16 {
      var head: Block := data[..16];
      var c := enc(XorBlock(head, iv));
      var rest: seq<byte> := Encrypted(enc, c, data[16..]);
      DecryptedEncrypted(enc, dec, c, data[16..]);
      var all: seq<byte> := c + rest;
      assert all[..16] == c && all[16..] == rest;
      XorBlockUndo(head, iv);
      assert data == head + data[16..];
    }
  }

  /** What the next block is chained to. */
  function LastBlock(iv: Block, sofar: seq<byte>): Block {
    if |sofar| < 16 then iv else sofar[|sofar| - 16..]
  }

  lemma NothingYet(iv: Block)
    ensures LastBlock(iv, []) == iv
  {
  }

  lemma LastOfTail(iv: Block, head: Block, tail: seq<byte>)
    requires |tail| % 16 == 0
    ensures LastBlock(iv, head + tail) == LastBlock(head, tail)
  {
    if tail == [] {
      assert (head + tail)[|head + tail| - 16..] == head;
    } else {
      assert (head + tail)[|head + tail| - 16..] == tail[|tail| - 16..];
    }
  }

  /** The block after k blocks is chained to the block before it. */
  lemma {:induction false} EncryptedSnoc(enc: Cipher, iv: Block, data: seq<byte>, last: Block)
    requires |data| % 16 == 0
    ensures var sofar: seq<byte> := Encrypted(enc, iv, data);
      Encrypted(enc, iv, data + last) == sofar + enc(XorBlock(last, LastBlock(iv, sofar)))
    decreases |data|
  {
    hide XorBlock, LastBlock;
    NothingYet(iv);
    if data == [] {
      assert data + last == last && last[..16] == last && last[16..] == [];
      assert enc(XorBlock(last, iv)) + [] == [] + enc(XorBlock(last, iv));
    } else {
      var c := enc(XorBlock(data[..16], iv));
      assert (data + last)[..16] == data[..16];
      assert (data + last)[16..] == data[16..] + last;
      EncryptedSnoc(enc, c, data[16..], last);
      var rest: seq<byte> := Encrypted(enc, c, data[16..]);
      var next: seq<byte> := enc(XorBlock(last, LastBlock(c, rest)));
      LastOfTail(iv, c, rest);
      assert c + (rest + next) == (c + rest) + next;
    }
  }

  lemma {:induction false} DecryptedSnoc(dec: Cipher, iv: Block, data: seq<byte>, last: Block)
    requires |data| % 16 == 0
    ensures Decrypted(dec, iv, data + last)
         == Decrypted(dec, iv, data) + XorBlock(dec(last), LastBlock(iv, data))
    decreases |data|
  {
    hide XorBlock, LastBlock;
    NothingYet(iv);
    if data == [] {
      assert data + last == last && last[..16] == last && last[16..] == [];
      assert XorBlock(dec(last), iv) + [] == [] + XorBlock(dec(last), iv);
    } else {
      assert (data + last)[..16] == data[..16];
      assert (data + last)[16..] == data[16..] + last;
      DecryptedSnoc(dec, data[..16], data[16..], last);
      assert data == data[..16] + data[16..];
      LastOfTail(iv, data[..16], data[16..]);
      var head: seq<byte> := XorBlock(dec(data[..16]), iv);
      var next: seq<byte> := XorBlock(dec(last), LastBlock(iv, data));
      assert head + (Decrypted(dec, data[..16], data[16..]) + next) == Decrypted(dec, iv, data) + next;
    }
  }

  // -------------------------------------------------- the blocks as the standard has them

  /** The byte that byte `j` is chained to. */
  function Before(iv: Block, cipher: seq<byte>, j: nat): byte
    requires j < |cipher| + 16
  {
    if j < 16 then iv[j] else cipher[j - 16]
  }

  /** Block `k` of some data. */
  function BlockAt(data: seq<byte>, k: nat): Block
    requires 16 * k + 16 <= |data|
  {
    data[16 * k..16 * k + 16]
  }

  lemma BlockOfTail(head: Block, tail: seq<byte>, k: nat)
    requires 16 * k + 16 <= |tail|
    ensures BlockAt(head + tail, k + 1) == BlockAt(tail, k)
  {
  }

  lemma BeforeOfTail(iv: Block, head: Block, tail: seq<byte>, j: nat)
    requires j < |tail| + 16
    ensures Before(iv, head + tail, j + 16) == Before(head, tail, j)
  {
  }

  /** Section 6.2 of NIST SP 800-38A, byte by byte: each deciphered byte is xored with the byte at its place in the
      cipher block before. */
  lemma {:induction false} DecryptedByte(dec: Cipher, iv: Block, data: seq<byte>, k: nat, i: nat)
    requires |data| % 16 == 0 && 16 * k + 16 <= |data| && i < 16
    ensures Decrypted(dec, iv, data)[16 * k + i] == Xor(dec(BlockAt(data, k))[i], Before(iv, data, 16 * k + i))
    decreases |data|
  {
    hide Xor;
    var head: Block, tail := data[..16], data[16..];
    var first: seq<byte> := XorBlock(dec(head), iv);
    var rest: seq<byte> := Decrypted(dec, head, tail);
    if k == 0 {
      assert (first + rest)[i] == first[i] && BlockAt(data, 0) == head;
    } else {
      DecryptedByte(dec, head, tail, k - 1, i);
      assert data == head + tail;
      BlockOfTail(head, tail, k - 1);
      BeforeOfTail(iv, head, tail, 16 * (k - 1) + i);
      assert (first + rest)[16 * k + i] == rest[16 * (k - 1) + i];
    }
  }

  /** And each cipher block is the encryption of the block xored in this way. */
  lemma {:induction false} EncryptedBlock(enc: Cipher, iv: Block, data: seq<byte>, k: nat, input: Block)
    requires |data| % 16 == 0 && 16 * k + 16 <= |data|
    requires forall i :: 0 <= i < 16 ==>
      input[i] == Xor(BlockAt(data, k)[i], Before(iv, Encrypted(enc, iv, data), 16 * k + i))
    ensures BlockAt(Encrypted(enc, iv, data), k) == enc(input)
    decreases |data|
  {
    hide Xor;
    var head: Block, tail := data[..16], data[16..];
    var c := enc(XorBlock(head, iv));
    var rest: seq<byte> := Encrypted(enc, c, tail);
    var all: seq<byte> := c + rest;
    assert data == head + tail;
    if k == 0 {
      assert BlockAt(data, 0) == head && BlockAt(all, 0) == c;
      assert input == XorBlock(head, iv);
    } else {
      BlockOfTail(head, tail, k - 1);
      BlockOfTail(c, rest, k - 1);
      forall i | 0 <= i < 16
        ensures input[i] == Xor(BlockAt(tail, k - 1)[i], Before(c, rest, 16 * (k - 1) + i))
      {
        BeforeOfTail(iv, c, rest, 16 * (k - 1) + i);
      }
      EncryptedBlock(enc, c, tail, k - 1, input);
    }
  }

  /** A changed cipher byte garbles its own block, changes the byte at its place in the next one by as much, and nothing
      else. */
  lemma FlippedByte(dec: Cipher, iv: Block, data: seq<byte>, at: nat, b: byte, k: nat, i: nat)
    requires |data| % 16 == 0 && 16 * k + 16 <= |data| && i < 16 && at < |data| && at / 16 != k
    ensures var p, q := Decrypted(dec, iv, data)[16 * k + i], Decrypted(dec, iv, data[at := b])[16 * k + i];
      Xor(p, q) == if at + 16 == 16 * k + i then Xor(data[at], b) else 0
  {
    var changed := data[at := b];
    var block := BlockAt(data, k);
    DecryptedByte(dec, iv, data, k, i);
    DecryptedByte(dec, iv, changed, k, i);
    assert BlockAt(changed, k) == block;
    hide Decrypted, BitXor;
    var x, y := Before(iv, data, 16 * k + i), Before(iv, changed, 16 * k + i);
    BitXorDifference(dec(block)[i], x, y);
    BitXorSelf(x);
  }

  // ---------------------------------------------------------------- kflash.py

  class Aes128Cbc {
    const enc: Cipher
    const dec: Cipher
    var lastCipherBlock: Block

    constructor (enc: Cipher, dec: Cipher, iv: Block)
      ensures this.enc == enc && this.dec == dec && lastCipherBlock == iv
    {
      this.enc, this.dec, lastCipherBlock := enc, dec, iv;
    }

    /** The error and the default of `__init__`: without a vector chaining starts from zeros, and None stands for
        the ValueError on a vector of the wrong length. */
    static method Create(enc: Cipher, dec: Cipher, iv: Option<seq<byte>>) returns (r: Option<Aes128Cbc>)
      ensures r == None <==> iv.Some? && |iv.value| != 16
      ensures r.Some? ==> fresh(r.value) && r.value.enc == enc && r.value.dec == dec
      ensures r.Some? ==> r.value.lastCipherBlock == if iv == None then ZERO_IV else iv.value
    {
      var first := ZERO_IV;
      if iv.Some? {
        if |iv.value| != 16 {
          return None;
        }
        first := iv.value;
      }
      var aes := new Aes128Cbc(enc, dec, first);
      r := Some(aes);
    }

    /** None stands for the ValueError on a block of the wrong length. */
    method Encrypt(plaintext: seq<byte>) returns (r: Option<seq<byte>>)
      modifies this
      ensures |plaintext| != 16 ==> r == None && lastCipherBlock == old(lastCipherBlock)
      ensures |plaintext| == 16 ==>
        r == Some(lastCipherBlock) && r.value == Encrypted(enc, old(lastCipherBlock), plaintext)
    {
      if |plaintext| != 16 {
        return None;
      }
      EncryptedSnoc(enc, lastCipherBlock, [], plaintext);
      assert [] + plaintext == plaintext;
      lastCipherBlock := enc(XorBlock(plaintext, lastCipherBlock));
      assert [] + lastCipherBlock == lastCipherBlock;
      r := Some(lastCipherBlock);
    }

    method Decrypt(ciphertext: seq<byte>) returns (r: Option<seq<byte>>)
      modifies this
      ensures |ciphertext| != 16 ==> r == None && lastCipherBlock == old(lastCipherBlock)
      ensures |ciphertext| == 16 ==>
        lastCipherBlock == ciphertext && r == Some(Decrypted(dec, old(lastCipherBlock), ciphertext))
    {
      if |ciphertext| != 16 {
        return None;
      }
      DecryptedSnoc(dec, lastCipherBlock, [], ciphertext);
      assert [] + ciphertext == ciphertext;
      var plaintext := XorBlock(dec(ciphertext), lastCipherBlock);
      assert [] + plaintext == plaintext;
      lastCipherBlock := ciphertext;
      r := Some(plaintext);
    }
  }

  /** How many zeros fill `n` bytes up to whole blocks. */
  function Filling(n: nat): (k: nat)
    ensures k < 16 && (n + k) % 16 == 0
  {
    if n % 16 == 0 then 0 else 16 - n % 16
  }

  /** A firmware file filled up with zeros to whole blocks. */
  function ZeroPadded(firmware: seq<byte>): (r: seq<byte>)
    ensures |r| % 16 == 0 && firmware <= r && |r| < |firmware| + 16
  {
    firmware + Fill(Filling(|firmware|), 0)
  }

  /** Fifteen extra zeros and floor division keep every firmware byte and no block more. */
  lemma WholeBlocks(firmware: seq<byte>, blocks: nat)
    requires blocks == (|firmware| + 15) / 16
    ensures (firmware + Fill(15, 0))[..16 * blocks] == ZeroPadded(firmware)
  {
    hide Filling, Fill;
    var zeros := Filling(|firmware|);
    BlocksOf(|firmware|);
    TakeMore(firmware, Fill(15, 0), zeros);
    assert Fill(15, 0)[..zeros] == Fill(zeros, 0);
  }

  lemma BlocksOf(n: nat)
    ensures 16 * ((n + 15) / 16) == n + Filling(n)
  {
    assert n + 15 == 16 * (n / 16) + (n % 16 + 15);
  }

  lemma TakeMore(a: seq<byte>, b: seq<byte>, k: nat)
    requires k <= |b|
    ensures (a + b)[..|a| + k] == a + b[..k]
  {
  }

  lemma EncryptStep(enc: Cipher, iv: Block, done: seq<byte>, block: Block)
    requires |done| % 16 == 0
    ensures var sofar: seq<byte> := Encrypted(enc, iv, done);
      var c: seq<byte> := Encrypted(enc, LastBlock(iv, sofar), block);
      && Encrypted(enc, iv, done + block) == sofar + c
      && LastBlock(iv, sofar + c) == c
  {
    hide XorBlock, Encrypted;
    var sofar: seq<byte> := Encrypted(enc, iv, done);
    Nothing(enc, iv);
    Nothing(enc, LastBlock(iv, sofar));
    EncryptedSnoc(enc, iv, done, block);
    EncryptedSnoc(enc, LastBlock(iv, sofar), [], block);
    assert [] + block == block;
    var c: seq<byte> := enc(XorBlock(block, LastBlock(iv, sofar)));
    assert [] + c == c;
    assert (sofar + c)[|sofar|..] == c;
  }

  lemma Nothing(enc: Cipher, iv: Block)
    ensures Encrypted(enc, iv, []) == [] && LastBlock(iv, []) == iv
  {
  }

  /** The encryption of `flash_firmware`, block by block through one `AES_128_CBC` object. */
  method EncryptFirmware(enc: Cipher, dec: Cipher, firmware: seq<byte>) returns (r: seq<byte>)
    ensures r == Encrypted(enc, ZERO_IV, ZeroPadded(firmware))
  {
    hide Encrypted, LastBlock, XorBlock, ZeroPadded;
    var created := Aes128Cbc.Create(enc, dec, Some(Fill(16, 0)));
    var aes := created.value;
    var padded := firmware + Fill(15, 0);
    r := [];
    Nothing(enc, ZERO_IV);
    assert padded[..0] == [];
    var blocks := |padded| / 16;
    var i := 0;
    while i < blocks
      invariant 0 <= i <= blocks
      invariant aes.enc == enc
      invariant r == Encrypted(enc, ZERO_IV, padded[..16 * i])
      invariant aes.lastCipherBlock == LastBlock(ZERO_IV, r)
    {
      var block := padded[16 * i..16 * i + 16];
      EncryptStep(enc, ZERO_IV, padded[..16 * i], block);
      assert padded[..16 * i] + block == padded[..16 * (i + 1)];
      var c := aes.Encrypt(block);
      r := r + c.value;
      i := i + 1;
    }
    WholeBlocks(firmware, blocks);
  }
}
