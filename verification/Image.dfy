/** The boot image format and its check, read off the cells of the chip. */
module Image {
  import opened Bytes
  import opened NorFlash
  import opened Sha256
  import opened Cbc

  const SHA256_LEN := 32
  /** One flag byte, four length bytes and the signature. */
  const OVERHEAD := 37

  datatype Hardware = Hardware(engine: Engine, unblock: Cipher)

  datatype Slots = Slots(app: nat, bak: nat, size: nat)

  /** Whole sectors inside the chip. */
  predicate Slot(addr: nat, size: nat) {
    && addr % SECTOR_SIZE == 0 && size % SECTOR_SIZE == 0
    && SECTOR_SIZE <= size && addr + size <= CHIP_SIZE
  }

  predicate Disjoint(a: nat, b: nat, size: nat) {
    a + size <= b || b + size <= a
  }

  predicate Placed(lay: Slots) {
    Slot(lay.app, lay.size) && Slot(lay.bak, lay.size) && Disjoint(lay.app, lay.bak, lay.size)
  }

  /** Where APP and BAK lie. The proofs hold for any two disjoint slots of whole sectors. */
  type Layout = lay: Slots | Placed(lay) witness Slots(64 * 1024, 2 * 64 * 1024, 64 * 1024)

  const STAGE1: Layout := Slots(64 * 1024, 2 * 64 * 1024, 64 * 1024)
  const STAGE2: Layout := Slots(3 * 64 * 1024, (3 * 64 + 320) * 1024, 320 * 1024)

  // ------------------------------------------------------------------ fields

  function Flag(m: Cells, a: nat): byte {
    Cell(m, a)
  }

  function LengthBytes(m: Cells, a: nat): (b: seq<byte>)
    ensures |b| == 4
  {
    Read(m, a + 1, 4)
  }

  function Length(m: Cells, a: nat): (n: nat)
    ensures n < UINT32_LIMIT
  {
    U32(LengthBytes(m, a))
  }

  function Body(m: Cells, a: nat): seq<byte> {
    Read(m, a + 5, Length(m, a))
  }

  /** Wherever the length field points to, even outside the slot. */
  function Signature(m: Cells, a: nat): Digest {
    Read(m, a + 5 + Length(m, a), SHA256_LEN)
  }

  /** The bytes from the flag through the signature. */
  function ImageOf(m: Cells, a: nat): (image: seq<byte>)
    ensures |image| == Length(m, a) + OVERHEAD
  {
    Read(m, a, Length(m, a) + OVERHEAD)
  }

  // --------------------------------------------------------------- the check

  /** `Runaway` is the decryption loop that never reaches length zero. */
  datatype Verdict = Pass | Oversize | BadSignature | Runaway

  function Check(hw: Hardware, m: Cells, a: nat, size: nat): Verdict
    requires OVERHEAD <= size
  {
    var length := Length(m, a);
    if length > size - OVERHEAD then Oversize
    else if Signature(m, a) != DriverHash(hw.engine, [Flag(m, a)] + LengthBytes(m, a) + Body(m, a)) then BadSignature
    else if Flag(m, a) % 2 == 1 && length % 16 != 0 then Runaway
    else Pass
  }

  /** What a checked image leaves in RAM. */
  function Plain(hw: Hardware, m: Cells, a: nat): seq<byte> {
    if Flag(m, a) % 2 == 1 then Decrypted(hw.unblock, ZERO_IV, Body(m, a)) else Body(m, a)
  }

  /** The 32-bit loop counter of the decryption after k blocks. */
  function Counter(length: nat, k: nat): int
    requires length < UINT32_LIMIT
  {
    (length - 16 * k) % UINT32_LIMIT
  }

  /** The decryption loop ends exactly for whole blocks: other lengths wrap around past zero for ever. */
  lemma DecryptionEnds(length: nat)
    requires length < UINT32_LIMIT
    ensures (exists k: nat :: Counter(length, k) == 0) <==> length % 16 == 0
  {
    if length % 16 == 0 {
      assert Counter(length, length / 16) == 0;
    }
    forall k: nat | Counter(length, k) == 0
      ensures length % 16 == 0
    {
      var q := (length - 16 * k) / UINT32_LIMIT;
      assert length == 16 * (k + q * (UINT32_LIMIT / 16));
    }
  }

  // ------------------------------------------------------------------ frames

  /** The cells of a slot are the same. */
  predicate SameSlot(m: Cells, m': Cells, a: nat, size: nat)
    requires a + size <= CHIP_SIZE
  {
    m[a..a + size] == m'[a..a + size]
  }

  lemma ReadInside(m: Cells, a: nat, n: nat)
    requires a + n <= CHIP_SIZE
    ensures Read(m, a, n) == m[a..a + n]
  {
    forall j | 0 <= j < n
      ensures Read(m, a, n)[j] == m[a..a + n][j]
    {
      assert (a + j) % CHIP_SIZE == a + j || a + j == CHIP_SIZE;
    }
  }

  lemma SameRead(m: Cells, m': Cells, a: nat, size: nat, at: nat, n: nat)
    requires a + size <= CHIP_SIZE && SameSlot(m, m', a, size)
    requires a <= at && at + n <= a + size
    ensures Read(m, at, n) == Read(m', at, n)
  {
    ReadInside(m, at, n);
    ReadInside(m', at, n);
    assert m[at..at + n] == m[a..a + size][at - a..at - a + n];
    assert m'[at..at + n] == m'[a..a + size][at - a..at - a + n];
  }

  lemma SameFields(m: Cells, m': Cells, a: nat, size: nat)
    requires OVERHEAD <= size && a + size <= CHIP_SIZE && SameSlot(m, m', a, size)
    ensures Flag(m, a) == Flag(m', a)
    ensures LengthBytes(m, a) == LengthBytes(m', a)
  {
    SameRead(m, m', a, size, a, 1);
    SameRead(m, m', a, size, a + 1, 4);
    assert Flag(m, a) == Read(m, a, 1)[0] && Flag(m', a) == Read(m', a, 1)[0];
  }

  // -------------------------------------------------- the check of an image that fits

  function StoredSignature(image: seq<byte>): (d: Digest)
    requires OVERHEAD <= |image|
  {
    image[|image| - SHA256_LEN..]
  }

  predicate Signed(hw: Hardware, image: seq<byte>)
    requires OVERHEAD <= |image|
  {
    StoredSignature(image) == DriverHash(hw.engine, image[..|image| - SHA256_LEN])
  }

  function ImageVerdict(hw: Hardware, image: seq<byte>): Verdict
    requires OVERHEAD <= |image|
  {
    if !Signed(hw, image) then BadSignature
    else if image[0] % 2 == 1 && (|image| - OVERHEAD) % 16 != 0 then Runaway
    else Pass
  }

  lemma ImageParts(m: Cells, a: nat)
    ensures ImageOf(m, a)[..|ImageOf(m, a)| - SHA256_LEN] == [Flag(m, a)] + LengthBytes(m, a) + Body(m, a)
    ensures StoredSignature(ImageOf(m, a)) == Signature(m, a)
    ensures ImageOf(m, a)[0] == Flag(m, a)
  {
  }

  lemma InPlace(m: Cells, a: nat, image: seq<byte>)
    requires ImageOf(m, a) == image && a + |image| <= CHIP_SIZE
    ensures m[a..a + |image|] == image
  {
    hide Read;
    ReadInside(m, a, |image|);
  }

  /** An image that fits is judged by its own bytes. */
  lemma CheckIsVerdict(hw: Hardware, m: Cells, a: nat, size: nat)
    requires OVERHEAD <= size && Length(m, a) <= size - OVERHEAD
    ensures Check(hw, m, a, size) == ImageVerdict(hw, ImageOf(m, a))
  {
    ImageParts(m, a);
  }

  /** The verdict depends on the slot alone, and so does the signature of an image that fits. */
  lemma CheckFrame(hw: Hardware, m: Cells, m': Cells, a: nat, size: nat)
    requires OVERHEAD <= size && a + size <= CHIP_SIZE
    requires SameSlot(m, m', a, size)
    ensures Length(m, a) == Length(m', a)
    ensures Check(hw, m, a, size) == Check(hw, m', a, size)
    ensures Length(m, a) <= size - OVERHEAD ==> ImageOf(m, a) == ImageOf(m', a) && Signature(m, a) == Signature(m', a)
  {
    SameFields(m, m', a, size);
    if Length(m, a) <= size - OVERHEAD {
      SameRead(m, m', a, size, a, Length(m, a) + OVERHEAD);
      CheckIsVerdict(hw, m, a, size);
      CheckIsVerdict(hw, m', a, size);
      ImageParts(m, a);
      ImageParts(m', a);
    }
  }
}
