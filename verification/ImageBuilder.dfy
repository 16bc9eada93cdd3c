/** genimg.py and genimg_whole.py: the image file and the two flash layouts, against the boot check. */
module ImageBuilder {
  import opened Bytes
  import opened Options
  import opened NorFlash
  import opened Sha256
  import opened Cbc
  import opened Image
  import opened Boot

  /** Zeros that bring header, firmware and signature to a multiple of 64 bytes. */
  function PadLen(n: nat): (k: nat)
    ensures k < 64 && (n + k + OVERHEAD) % 64 == 0
  {
    var rest := (n + OVERHEAD) % 64;
    if rest != 0 then 64 - rest else 0
  }

  function Padded(firmware: seq<byte>): (r: seq<byte>)
    ensures |r| == |firmware| + PadLen(|firmware|) && firmware <= r
    ensures forall i :: |firmware| <= i < |r| ==> r[i] == 0
  {
    firmware + Fill(PadLen(|firmware|), 0)
  }

  /** Flag, length, body and signature; None where packing the length as 32 bits raises an error. */
  function Pack(engine: Engine, flag: byte, body: seq<byte>): (r: Option<seq<byte>>)
    ensures r.Some? ==> |r.value| == |body| + OVERHEAD
  {
    if |body| >= UINT32_LIMIT then None
    else
      var data := [flag] + U32Bytes(|body|) + body;
      Some(data + StandardHash(engine, data))
  }

  /** The image of genimg.py and genimg_whole.py. */
  function GenImgFile(engine: Engine, firmware: seq<byte>): Option<seq<byte>> {
    Pack(engine, 0, Padded(firmware))
  }

  /** The image that `flash_firmware` of kflash.py prepares when it has a key. */
  function EncryptedImage(engine: Engine, enc: Cipher, firmware: seq<byte>): Option<seq<byte>> {
    Pack(engine, 1, Encrypted(enc, ZERO_IV, ZeroPadded(firmware)))
  }

  lemma PackLayout(engine: Engine, flag: byte, body: seq<byte>, image: seq<byte>)
    requires Pack(engine, flag, body) == Some(image)
    ensures image[0] == flag && U32(image[1..5]) == |body| && image[5..5 + |body|] == body
  {
    assert image[1..5] == U32Bytes(|body|);
  }

  /** The image byte by byte: the flag, the length from its lowest byte on, the body, and the hash of all that. */
  lemma ImageBytes(engine: Engine, flag: byte, body: seq<byte>, image: seq<byte>)
    requires Pack(engine, flag, body) == Some(image)
    ensures |image| == 1 + 4 + |body| + 32 && image[0] == flag && image[5..5 + |body|] == body
    ensures |body| == image[1] as int + 0x100 * (image[2] as int) + 0x1_0000 * (image[3] as int)
                      + 0x100_0000 * (image[4] as int)
    ensures image[5 + |body|..] == StandardHash(engine, image[..5 + |body|])
  {
    hide StandardHash, U32Bytes;
    PackLayout(engine, flag, body, image);
    var data := [flag] + U32Bytes(|body|) + body;
    assert image[..5 + |body|] == data && image[5 + |body|..] == StandardHash(engine, data);
  }

  /** The fields of an image that lies in the chip. */
  lemma Lies(image: seq<byte>, m: Cells, a: nat)
    requires OVERHEAD <= |image| && U32(image[1..5]) == |image| - OVERHEAD
    requires a + |image| <= CHIP_SIZE && m[a..a + |image|] == image
    ensures Length(m, a) == |image| - OVERHEAD && ImageOf(m, a) == image
  {
    hide U32, Read;
    ReadInside(m, a, |image|);
    ReadPart(m, a, |image|, 1, 5);
  }

  lemma ReadPart(m: Cells, a: nat, n: nat, i: nat, j: nat)
    requires i <= j <= n
    ensures Read(m, a, n)[i..j] == Read(m, a + i, j - i)
  {
  }

  lemma PackFields(engine: Engine, flag: byte, body: seq<byte>, image: seq<byte>, m: Cells, a: nat)
    requires Pack(engine, flag, body) == Some(image)
    requires a + |image| <= CHIP_SIZE && m[a..a + |image|] == image
    ensures Length(m, a) == |body|
    ensures ImageOf(m, a) == image && Flag(m, a) == flag && Body(m, a) == body
  {
    hide Pack, U32, Read;
    PackLayout(engine, flag, body, image);
    Lies(image, m, a);
    ImageParts(m, a);
    ReadPart(m, a, |image|, 5, 5 + |body|);
  }

  /** A packed image whose length suits the driver's hash and, if encrypted, the cipher, is valid. */
  lemma PackVerdict(hw: Hardware, flag: byte, body: seq<byte>, image: seq<byte>)
    requires Pack(hw.engine, flag, body) == Some(image) && |image| + 64 < UINT32_LIMIT
    requires (|body| + 5) % 64 <= 55
    requires flag % 2 == 1 ==> |body| % 16 == 0
    ensures ImageVerdict(hw, image) == Pass
  {
    PackSigned(hw, flag, body, image);
  }

  lemma PackSigned(hw: Hardware, flag: byte, body: seq<byte>, image: seq<byte>)
    requires Pack(hw.engine, flag, body) == Some(image) && |image| + 64 < UINT32_LIMIT
    requires (|body| + 5) % 64 <= 55
    ensures Signed(hw, image) && image[0] == flag
  {
    var data := [flag] + U32Bytes(|body|) + body;
    DriverAgrees(hw.engine, data);
    assert image[..|image| - SHA256_LEN] == data && image[|image| - SHA256_LEN..] == StandardHash(hw.engine, data);
  }

  lemma Residues(n: nat)
    ensures (n + OVERHEAD) % 64 == 0 ==> (n + 5) % 64 == 32
    ensures n % 16 == 0 ==> (n + 5) % 64 <= 53
  {
    if (n + OVERHEAD) % 64 == 0 {
      Remainder((n + OVERHEAD) / 64 - 1, 32);
    }
    if n % 16 == 0 {
      var q := n / 16;
      assert n + 5 == 64 * (q / 4) + (16 * (q % 4) + 5);
      Remainder(q / 4, 16 * (q % 4) + 5);
    }
  }

  lemma Remainder(q: int, r: nat)
    requires r < 64
    ensures (64 * q + r) % 64 == r
  {
  }

  /** A built image, wherever it lies in the chip, is a multiple of 64 bytes and is accepted
      if and only if it fits its slot. */
  lemma BuilderMeetsChecker(hw: Hardware, firmware: seq<byte>, image: seq<byte>, m: Cells, a: nat, size: nat)
    requires GenImgFile(hw.engine, firmware) == Some(image) && OVERHEAD <= size
    requires a + |image| <= CHIP_SIZE && m[a..a + |image|] == image
    ensures |image| % 64 == 0
    ensures Check(hw, m, a, size) == Pass <==> |image| <= size
    ensures ImageOf(m, a) == image
    ensures Plain(hw, m, a) == Body(m, a) == Padded(firmware)
  {
    PackFields(hw.engine, 0, Padded(firmware), image, m, a);
    Residues(|Padded(firmware)|);
    PackVerdict(hw, 0, Padded(firmware), image);
    if |image| <= size {
      CheckIsVerdict(hw, m, a, size);
    }
  }

  /** An encrypted image is accepted if and only if it fits, and deciphers to the zero-padded firmware. */
  lemma EncryptedMeetsChecker(hw: Hardware, enc: Cipher, firmware: seq<byte>, image: seq<byte>,
                              m: Cells, a: nat, size: nat)
    requires EncryptedImage(hw.engine, enc, firmware) == Some(image) && OVERHEAD <= size
    requires forall b: Block :: hw.unblock(enc(b)) == b
    requires a + |image| <= CHIP_SIZE && m[a..a + |image|] == image
    ensures Check(hw, m, a, size) == Pass <==> |image| <= size
    ensures Plain(hw, m, a) == ZeroPadded(firmware)
  {
    var body := Encrypted(enc, ZERO_IV, ZeroPadded(firmware));
    PackFields(hw.engine, 1, body, image, m, a);
    DecryptedEncrypted(enc, hw.unblock, ZERO_IV, ZeroPadded(firmware));
    Residues(|body|);
    PackVerdict(hw, 1, body, image);
    if |image| <= size {
      CheckIsVerdict(hw, m, a, size);
    }
  }

  /** The low bit of the flag alone says whether a packed body is a cipher text. */
  lemma FlagDecides(hw: Hardware, enc: Cipher, flag: byte, plain: seq<byte>, image: seq<byte>,
                    m: Cells, a: nat, size: nat)
    requires forall b: Block :: hw.unblock(enc(b)) == b
    requires |plain| % 16 == 0 && OVERHEAD <= size
    requires Pack(hw.engine, flag, if flag % 2 == 1 then Encrypted(enc, ZERO_IV, plain) else plain) == Some(image)
    requires a + |image| <= CHIP_SIZE && m[a..a + |image|] == image
    ensures Check(hw, m, a, size) == Pass <==> |image| <= size
    ensures Plain(hw, m, a) == plain
  {
    hide Encrypted, Decrypted, Pack, Check, ImageVerdict, Read, U32;
    var body := if flag % 2 == 1 then Encrypted(enc, ZERO_IV, plain) else plain;
    PackFields(hw.engine, flag, body, image, m, a);
    DecryptedEncrypted(enc, hw.unblock, ZERO_IV, plain);
    WholeLength(|plain|);
    PackVerdict(hw, flag, body, image);
    if |image| <= size {
      CheckIsVerdict(hw, m, a, size);
    } else {
      TooLong(hw, m, a, size);
    }
  }

  lemma WholeLength(n: nat)
    requires n % 16 == 0
    ensures n / 16 * 16 == n && (n + 5) % 64 <= 55
  {
  }

  lemma TooLong(hw: Hardware, m: Cells, a: nat, size: nat)
    requires OVERHEAD <= size && Length(m, a) > size - OVERHEAD
    ensures Check(hw, m, a, size) == Oversize
  {
  }

  /** Python's `bytearray(b'\xff') * n`, empty for negative n. */
  function Gap(n: int): seq<byte> {
    if n <= 0 then [] else Fill(n, ERASED)
  }

  /** What genimg.py writes: stage 1, then stage 2 twice. */
  function StageFile(loader1: seq<byte>, loader2: seq<byte>): seq<byte> {
    loader1 + Gap(64 * 1024 - |loader1|) + loader2 + Gap(64 * 1024 - |loader2|) + loader2
  }

  /** What genimg_whole.py writes: the loader, then the application twice. */
  function WholeFile(loader: seq<byte>, app: seq<byte>): seq<byte> {
    loader + Gap(3 * 64 * 1024 - |loader|) + app + Gap(320 * 1024 - |app|) + app
  }

  lemma TwoCopies(first: seq<byte>, image: seq<byte>, at: nat, size: nat)
    requires |first| <= at && |image| <= size
    ensures var file := first + Gap(at - |first|) + image + Gap(size - |image|) + image;
      && |file| == at + size + |image|
      && file[at..at + |image|] == image && file[at + size..] == image
  {
  }

  /** Two copies of a built image in the two slots boot without any write. */
  lemma TwoCopiesBoot(hw: Hardware, lay: Layout, firmware: seq<byte>, image: seq<byte>, m: Cells)
    requires GenImgFile(hw.engine, firmware) == Some(image) && |image| <= lay.size
    requires m[lay.app..lay.app + |image|] == image && m[lay.bak..lay.bak + |image|] == image
    ensures PlanOf(hw, lay, m) == BootApp
    ensures Code(hw, lay, m) == Padded(firmware)
  {
    BuilderMeetsChecker(hw, firmware, image, m, lay.app, lay.size);
    BuilderMeetsChecker(hw, firmware, image, m, lay.bak, lay.size);
    ImageParts(m, lay.app);
    ImageParts(m, lay.bak);
  }

  /** A chip flashed with genimg.py's file: stage 1 boots stage 2 as it was built. */
  lemma StageFileBoots(hw: Hardware, firmware1: seq<byte>, image1: seq<byte>,
                       firmware2: seq<byte>, image2: seq<byte>, m: Cells)
    requires GenImgFile(hw.engine, firmware1) == Some(image1) && |image1| <= 64 * 1024
    requires GenImgFile(hw.engine, firmware2) == Some(image2) && |image2| <= 64 * 1024
    requires StageFile(image1, image2) <= m
    ensures PlanOf(hw, STAGE1, m) == BootApp && Code(hw, STAGE1, m) == Padded(firmware2)
  {
    var file := StageFile(image1, image2);
    TwoCopies(image1, image2, 64 * 1024, 64 * 1024);
    Flashed(file, m, STAGE1, image2);
    TwoCopiesBoot(hw, STAGE1, firmware2, image2, m);
  }

  lemma Flashed(file: seq<byte>, m: Cells, lay: Layout, image: seq<byte>)
    requires file <= m && |file| == lay.bak + |image| && lay.app + |image| <= |file|
    requires file[lay.app..lay.app + |image|] == image && file[lay.bak..] == image
    ensures m[lay.app..lay.app + |image|] == image && m[lay.bak..lay.bak + |image|] == image
  {
    assert m[..|file|] == file;
    assert m[lay.app..lay.app + |image|] == m[..|file|][lay.app..lay.app + |image|];
    assert m[lay.bak..lay.bak + |image|] == m[..|file|][lay.bak..];
  }

  /** A chip flashed with genimg_whole.py's file: stage 2 boots the application as it was built. */
  lemma WholeFileBoots(hw: Hardware, loader: seq<byte>, firmware: seq<byte>, image: seq<byte>, m: Cells)
    requires |loader| <= 3 * 64 * 1024
    requires GenImgFile(hw.engine, firmware) == Some(image) && |image| <= 320 * 1024
    requires WholeFile(loader, image) <= m
    ensures PlanOf(hw, STAGE2, m) == BootApp && Code(hw, STAGE2, m) == Padded(firmware)
  {
    var file := WholeFile(loader, image);
    TwoCopies(loader, image, 3 * 64 * 1024, 320 * 1024);
    Flashed(file, m, STAGE2, image);
    TwoCopiesBoot(hw, STAGE2, firmware, image, m);
  }
}
