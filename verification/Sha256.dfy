/** sha256.c: how a message is buffered, padded and pushed to the SHA accelerator. */
module Sha256 {
  import opened Bytes

  type Digest = s: seq<byte> | |s| == 32 witness Fill(32, 0)

  /** The accelerator: a digest from the programmed block count and the bytes of the words pushed to it. */
  type Engine = (nat, seq<byte>) -> Digest

  const UINT64_LIMIT := 0x1_0000_0000_0000_0000

  /** The source's 64-byte table. Its next-to-last byte is 0x02. */
  const PADDING: seq<byte> := [0x80] + Fill(61, 0) + [0x02, 0x00]

  /** The block count written to `sha_data_num`, in 32-bit arithmetic. */
  function ProgrammedBlocks(inputSize: nat): nat {
    (inputSize + 64) % UINT32_LIMIT / 64
  }

  // ------------------------------------------------------------ the length field

  function Reversed4(b: seq<byte>): (r: seq<byte>)
    requires |b| == 4
    ensures |r| == 4
  {
    [b[3], b[2], b[1], b[0]]
  }

  function ByteSwap32(n: nat): (r: nat)
    requires n < UINT32_LIMIT
    ensures r < UINT32_LIMIT
  {
    U32(Reversed4(U32Bytes(n)))
  }

  function ByteSwap64(n: nat): (r: nat)
    requires n < UINT64_LIMIT
    ensures r < UINT64_LIMIT
  {
    ByteSwap32(n % UINT32_LIMIT) * UINT32_LIMIT + ByteSwap32(n / UINT32_LIMIT)
  }

  /** The eight bytes of a `uint64_t` in little-endian memory. */
  function U64Bytes(n: nat): (b: seq<byte>)
    requires n < UINT64_LIMIT
    ensures |b| == 8
  {
    U32Bytes(n % UINT32_LIMIT) + U32Bytes(n / UINT32_LIMIT)
  }

  /** Most significant byte first. */
  function BigEndian32(n: nat): (b: seq<byte>)
    requires n < UINT32_LIMIT
    ensures |b| == 4
  {
    [n / 0x100_0000, n / 0x1_0000 % 0x100, n / 0x100 % 0x100, n % 0x100]
  }

  function BigEndian64(n: nat): (b: seq<byte>)
    requires n < UINT64_LIMIT
    ensures |b| == 8
  {
    BigEndian32(n / UINT32_LIMIT) + BigEndian32(n % UINT32_LIMIT)
  }

  /** Swapping the halves and their bytes turns little-endian memory into the big-endian length field. */
  lemma SwapIsBigEndian(n: nat)
    requires n < UINT64_LIMIT
    ensures U64Bytes(ByteSwap64(n)) == BigEndian64(n)
  {
    var hi, lo := n / UINT32_LIMIT, n % UINT32_LIMIT;
    var r := ByteSwap64(n);
    assert r % UINT32_LIMIT == ByteSwap32(hi) && r / UINT32_LIMIT == ByteSwap32(lo);
    U32RoundTrip(Reversed4(U32Bytes(hi)));
    U32RoundTrip(Reversed4(U32Bytes(lo)));
    ReversedIsBigEndian(hi);
    ReversedIsBigEndian(lo);
  }

  lemma ReversedIsBigEndian(n: nat)
    requires n < UINT32_LIMIT
    ensures Reversed4(U32Bytes(n)) == BigEndian32(n)
  {
    var n1 := n / 0x100;
    var n2 := n1 / 0x100;
    assert n2 == n / 0x1_0000 && n2 / 0x100 == n / 0x100_0000;
  }

  // ------------------------------------------------------------------- padding

  /** The fewest zero bytes that, after the byte 0x80, fill all but eight bytes of the last block. */
  function FipsZeros(n: nat): (k: nat)
    ensures k < 64 && (n + 1 + k) % 64 == 56
  {
    var r := n % 64;
    if r <= 55 then 55 - r else 119 - r
  }

  /** Section 5.1.1 of FIPS 180-4, in bytes: a one bit, the fewest zero bits that fill all but the last
      64 bits of a block, and the length in bits. */
  function FipsPadded(msg: seq<byte>): (p: seq<byte>)
    requires 8 * |msg| < UINT64_LIMIT
  {
    msg + [0x80] + Fill(FipsZeros(|msg|), 0) + BigEndian64(8 * |msg|)
  }

  /** How many bytes of the table `sha256_final` takes when `buffered` bytes wait in the buffer. */
  function PadCount(buffered: nat): (n: nat)
    requires buffered < 64
    ensures 0 < n <= 64
    ensures buffered + n == if buffered < 56 then 56 else 120
  {
    if 120 - buffered > 64 then 56 - buffered else 120 - buffered
  }

  /** The `totalLength` of a message of n bytes. */
  function BitLength(n: nat): (r: nat)
    ensures r < UINT64_LIMIT
  {
    8 * n % UINT64_LIMIT
  }

  lemma AddModulo(a: nat, b: nat)
    ensures (a % UINT64_LIMIT + b) % UINT64_LIMIT == (a + b) % UINT64_LIMIT
  {
  }

  lemma BitLengthAdd(n: nat, k: nat)
    ensures (BitLength(n) + k * 8) % UINT64_LIMIT == BitLength(n + k)
  {
    AddModulo(8 * n, 8 * k);
  }

  /** The bytes the driver pushes for a message. */
  function Feed(msg: seq<byte>): (p: seq<byte>)
    ensures |p| == 64 * FeedBlocks(|msg|)
  {
    msg + PADDING[..PadCount(|msg| % 64)] + BigEndian64(BitLength(|msg|))
  }

  function FeedBlocks(n: nat): nat {
    n / 64 + if n % 64 < 56 then 1 else 2
  }

  /** What `sha256_init`, `sha256_update` and `sha256_final` compute for a whole message. */
  function DriverHash(engine: Engine, msg: seq<byte>): Digest {
    engine(ProgrammedBlocks(|msg|), Feed(msg))
  }

  /** The standard's hash: the accelerator on the standard padding with the matching block count. */
  function StandardHash(engine: Engine, msg: seq<byte>): Digest
    requires 8 * |msg| < UINT64_LIMIT
  {
    engine(|FipsPadded(msg)| / 64, FipsPadded(msg))
  }

  lemma TableIsStandard(r: nat)
    requires r < 64 && r != 56 && r != 57
    ensures PADDING[..PadCount(r)] == [0x80] + Fill(if r <= 55 then 55 - r else 119 - r, 0)
  {
  }

  /** The bytes pushed are the standard ones except for the two lengths that reach the table's 0x02. */
  lemma FeedIsStandard(msg: seq<byte>)
    requires 8 * |msg| < UINT64_LIMIT
    ensures Feed(msg) == FipsPadded(msg) <==> |msg| % 64 != 56 && |msg| % 64 != 57
  {
    var r := |msg| % 64;
    var zeros := Fill(FipsZeros(|msg|), 0);
    var tail := BigEndian64(8 * |msg|);
    assert BitLength(|msg|) == 8 * |msg|;
    if r != 56 && r != 57 {
      TableIsStandard(r);
      assert msg + ([0x80] + zeros) == msg + [0x80] + zeros;
    } else {
      TableDiffers(msg, r, zeros, tail);
    }
  }

  lemma TableDiffers(msg: seq<byte>, r: nat, zeros: seq<byte>, tail: seq<byte>)
    requires r == 56 || r == 57
    requires zeros == Fill(119 - r, 0)
    ensures msg + PADDING[..PadCount(r)] + tail != msg + [0x80] + zeros + tail
  {
    var i := |msg| + 62;
    assert (msg + PADDING[..PadCount(r)] + tail)[i] == 0x02;
    assert (msg + [0x80] + zeros + tail)[i] == zeros[61];
  }

  /** The programmed block count fits what is pushed exactly up to 55 bytes into the last block. */
  lemma BlocksFit(msg: seq<byte>)
    requires |msg| + 64 < UINT32_LIMIT
    ensures ProgrammedBlocks(|msg|) == |Feed(msg)| / 64 <==> |msg| % 64 <= 55
  {
    assert (|msg| + 64) % UINT32_LIMIT == |msg| + 64;
  }

  lemma DriverAgrees(engine: Engine, msg: seq<byte>)
    requires |msg| + 64 < UINT32_LIMIT
    requires |msg| % 64 <= 55
    ensures DriverHash(engine, msg) == StandardHash(engine, msg)
  {
    assert |msg| % 64 != 56;
    FeedIsStandard(msg);
    BlocksFit(msg);
  }

  function CountDigest(blocks: nat, k: nat): (d: Digest)
    ensures d[0] == if blocks == k then 1 else 0
  {
    Fill(32, if blocks == k then 1 else 0)
  }

  /** An accelerator that tells block counts apart. */
  function Counting(k: nat): Engine {
    (blocks: nat, fed: seq<byte>) => CountDigest(blocks, k)
  }

  lemma BlockCounts(msg: seq<byte>)
    requires |msg| + 64 < UINT32_LIMIT
    requires |msg| % 64 > 55
    ensures ProgrammedBlocks(|msg|) == |msg| / 64 + 1 && |FipsPadded(msg)| / 64 == |msg| / 64 + 2
  {
  }

  lemma DriverDiffers(msg: seq<byte>)
    requires |msg| + 64 < UINT32_LIMIT
    requires |msg| % 64 > 55
    ensures var engine := Counting(ProgrammedBlocks(|msg|)); DriverHash(engine, msg) != StandardHash(engine, msg)
  {
    var engine := Counting(ProgrammedBlocks(|msg|));
    hide FipsPadded, Feed, ProgrammedBlocks;
    BlockCounts(msg);
    assert DriverHash(engine, msg)[0] == 1 && StandardHash(engine, msg)[0] == 0;
  }

  /** Whatever the accelerator computes, the driver's hash is the standard one, exactly up to 55 bytes into the last
      block. */
  lemma DriverIsStandard(msg: seq<byte>)
    requires |msg| + 64 < UINT32_LIMIT
    ensures (forall engine: Engine :: DriverHash(engine, msg) == StandardHash(engine, msg)) <==> |msg| % 64 <= 55
  {
    hide DriverHash, StandardHash;
    if |msg| % 64 <= 55 {
      forall engine: Engine ensures DriverHash(engine, msg) == StandardHash(engine, msg) {
        DriverAgrees(engine, msg);
      }
    } else {
      DriverDiffers(msg);
    }
  }

  // ------------------------------------------------------------------ the driver

  class Context {
    const engine: Engine
    var totalLength: nat
    var bufferLength: nat
    const buffer: array<byte>
    /** The accelerator's `sha_data_num` and the bytes of all words written to `sha_data_in1`. */
    var blocks: nat
    var fed: seq<byte>
    ghost var pushed: nat

    ghost predicate Valid()
      reads this, buffer
    {
      && buffer.Length == 64
      && bufferLength < 64
      && |fed| == 64 * pushed
      && totalLength == BitLength(|Absorbed()|)
    }

    /** Everything passed to `Update` so far. */
    ghost function Absorbed(): seq<byte>
      requires buffer.Length == 64 && bufferLength < 64
      reads this, buffer
    {
      fed + buffer[..bufferLength]
    }

    constructor (engine: Engine, inputSize: nat)
      ensures Valid() && fresh(buffer)
      ensures this.engine == engine
      ensures Absorbed() == [] && blocks == ProgrammedBlocks(inputSize)
    {
      this.engine := engine;
      totalLength, bufferLength := 0, 0;
      buffer := new byte[64](_ => 0);
      blocks := (inputSize + 64) % UINT32_LIMIT / 64;
      fed, pushed := [], 0;
    }

    method PushBlock()
      requires buffer.Length == 64
      modifies `fed, `pushed
      ensures fed == old(fed) + buffer[..] && pushed == old(pushed) + 1
    {
      var i := 0;
      while i < 16
        invariant 0 <= i <= 16
        invariant fed == old(fed) + buffer[..4 * i] && pushed == old(pushed)
      {
        fed := fed + buffer[4 * i..4 * i + 4];
        assert buffer[..4 * i] + buffer[4 * i..4 * i + 4] == buffer[..4 * i + 4];
        i := i + 1;
      }
      pushed := pushed + 1;
    }

    /** `memcpy` into the buffer, and the two counters. */
    method Copy(chunk: seq<byte>)
      requires Valid() && bufferLength + |chunk| <= 64
      modifies `totalLength, `bufferLength, buffer
      ensures bufferLength == old(bufferLength) + |chunk|
      ensures fed + buffer[..bufferLength] == old(Absorbed()) + chunk
      ensures totalLength == BitLength(|old(Absorbed())| + |chunk|)
    {
      forall j | 0 <= j < |chunk| {
        buffer[bufferLength + j] := chunk[j];
      }
      BitLengthAdd(|old(Absorbed())|, |chunk|);
      totalLength := (totalLength + |chunk| * 8) % UINT64_LIMIT;
      bufferLength := bufferLength + |chunk|;
    }

    method Update(data: seq<byte>)
      requires Valid()
      modifies this, buffer
      ensures Valid()
      ensures Absorbed() == old(Absorbed()) + data
      ensures blocks == old(blocks)
    {
      var rest := data;
      while rest != []
        invariant Valid()
        invariant Absorbed() + rest == old(Absorbed()) + data
        invariant blocks == old(blocks)
        decreases |rest|
      {
        var bytesToCopy := 64 - bufferLength;
        if bytesToCopy > |rest| {
          bytesToCopy := |rest|;
        }
        ghost var before := Absorbed();
        Copy(rest[..bytesToCopy]);
        assert before + rest[..bytesToCopy] + rest[bytesToCopy..] == before + rest;
        rest := rest[bytesToCopy..];
        if bufferLength == 64 {
          PushBlock();
          assert fed + buffer[..0] == fed;
          bufferLength := 0;
        }
      }
    }

    method Final() returns (hash: Digest)
      requires Valid()
      modifies this, buffer
      ensures fed == Feed(old(Absorbed()))
      ensures blocks == old(blocks)
      ensures hash == engine(blocks, fed)
    {
      ghost var msg := Absorbed();
      Buffered(|msg|, pushed, bufferLength);
      var bytesToPad := 120 - bufferLength;
      if bytesToPad > 64 {
        bytesToPad := bytesToPad - 64;
      }
      var lengthPad := ByteSwap64(totalLength);
      SwapIsBigEndian(totalLength);
      Update(PADDING[..bytesToPad]);
      Update(U64Bytes(lengthPad));
      assert Absorbed() == Feed(msg);
      Aligned(FeedBlocks(|msg|), pushed, bufferLength);
      assert fed == Absorbed();
      hash := engine(blocks, fed);
    }

    static lemma Aligned(n: nat, blocks: nat, rest: nat)
      requires 64 * n == 64 * blocks + rest && rest < 64
      ensures rest == 0
    {
    }

    static lemma Buffered(n: nat, blocks: nat, rest: nat)
      requires n == 64 * blocks + rest && rest < 64
      ensures n % 64 == rest
    {
    }
  }
}
