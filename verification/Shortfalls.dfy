/** Chips on which the boot loader does not do what one would expect. */
module Shortfalls {
  import opened Bytes
  import opened Options
  import opened NorFlash
  import opened Cbc
  import opened Image
  import opened Boot
  import opened Recovery
  import opened ImageBuilder

  /** APP holds an encrypted image, BAK is erased, and the signature cannot be mistaken for erased cells. */
  ghost predicate FreshlyFlashed(hw: Hardware, enc: Cipher, lay: Layout, firmware: seq<byte>, image: seq<byte>,
                                 m: Cells) {
    && EncryptedImage(hw.engine, enc, firmware) == Some(image) && |image| <= lay.size
    && (forall b: Block :: hw.unblock(enc(b)) == b)
    && m[lay.app..lay.app + |image|] == image && StoredSignature(image) != BLANK
    && m[lay.bak + 1..lay.bak + OVERHEAD] == Fill(OVERHEAD - 1, ERASED)
  }

  /** The first power-up copies the image and then jumps to the ciphertext. */
  lemma RunsCiphertext(hw: Hardware, enc: Cipher, lay: Layout, firmware: seq<byte>, image: seq<byte>, m: Cells)
    requires FreshlyFlashed(hw, enc, lay, firmware, image, m)
    ensures PlanOf(hw, lay, m) == AppToBak && Firmware(hw, lay, m) == image
    ensures Code(hw, lay, m) == Encrypted(enc, ZERO_IV, ZeroPadded(firmware))
  {
    hide Check, Encrypted, ZeroPadded, Pack;
    EncryptedMeetsChecker(hw, enc, firmware, image, m, lay.app, lay.size);
    PackFields(hw.engine, 1, Encrypted(enc, ZERO_IV, ZeroPadded(firmware)), image, m, lay.app);
    ImageParts(m, lay.app);
    BlankHeader(hw, m, lay.bak, lay.size);
  }

  /** If the copy is not cut, the next power-up runs the firmware. */
  lemma RunsPlainNext(hw: Hardware, enc: Cipher, lay: Layout, firmware: seq<byte>, image: seq<byte>,
                      m: Cells, cmds: seq<Command>)
    requires FreshlyFlashed(hw, enc, lay, firmware, image, m) && BootCommands(hw, lay, m, cmds)
    ensures var m' := Run(m, cmds); PlanOf(hw, lay, m') == BootApp && Code(hw, lay, m') == ZeroPadded(firmware)
  {
    hide Check, Encrypted, ZeroPadded, Pack, BootCommands, Run, ImageOf, PlanOf, Code, Firmware, EncryptedImage;
    RunsCiphertext(hw, enc, lay, firmware, image, m);
    UncutBoot(hw, lay, m, cmds);
    RunsPlain(hw, enc, lay, firmware, image, Run(m, cmds));
  }

  lemma RunsPlain(hw: Hardware, enc: Cipher, lay: Layout, firmware: seq<byte>, image: seq<byte>, m: Cells)
    requires EncryptedImage(hw.engine, enc, firmware) == Some(image) && |image| <= lay.size
    requires forall b: Block :: hw.unblock(enc(b)) == b
    requires PlanOf(hw, lay, m) == BootApp && ImageOf(m, lay.app) == image
    ensures Code(hw, lay, m) == ZeroPadded(firmware)
  {
    hide Check, Encrypted, ZeroPadded, Pack, ImageOf, Plain, Read, Decide, Signature;
    InPlace(m, lay.app, image);
    EncryptedMeetsChecker(hw, enc, firmware, image, m, lay.app, lay.size);
  }

  /** BAK holds a built image, APP the same but for one byte of its body: the chip boots exactly if the damage goes
      unnoticed, although BAK is good. */
  lemma DamagedCopyIsFatal(hw: Hardware, lay: Layout, firmware: seq<byte>, image: seq<byte>, at: nat, b: byte, m: Cells)
    requires GenImgFile(hw.engine, firmware) == Some(image) && |image| <= lay.size
    requires 5 <= at < |image| - SHA256_LEN && image[at] != b
    requires m[lay.bak..lay.bak + |image|] == image && m[lay.app..lay.app + |image|] == image[at := b]
    ensures Check(hw, m, lay.bak, lay.size) == Pass && Signature(m, lay.app) == Signature(m, lay.bak)
    ensures Bootable(hw, lay, m) <==> Signed(hw, image[at := b])
  {
    hide Check, Padded, U32, StoredSignature, Signed, Pack;
    var damaged := image[at := b];
    BuilderMeetsChecker(hw, firmware, image, m, lay.bak, lay.size);
    PackLayout(hw.engine, 0, Padded(firmware), image);
    SameEnds(image, at, b);
    Lies(damaged, m, lay.app);
    CheckIsVerdict(hw, m, lay.app, lay.size);
    ImageParts(m, lay.app);
    ImageParts(m, lay.bak);
  }

  lemma SameEnds(image: seq<byte>, at: nat, b: byte)
    requires 5 <= at < |image| - SHA256_LEN
    ensures var damaged := image[at := b];
      damaged[0] == image[0] && damaged[1..5] == image[1..5] && StoredSignature(damaged) == StoredSignature(image)
  {
    var damaged := image[at := b];
    assert damaged[1..5] == image[1..5];
    assert damaged[|image| - SHA256_LEN..] == image[|image| - SHA256_LEN..];
  }

  /** An encrypted body that is not whole blocks: in either slot it keeps the chip from starting. */
  lemma OddLengthHangs(hw: Hardware, lay: Layout, flag: byte, body: seq<byte>, image: seq<byte>, a: nat, m: Cells)
    requires Pack(hw.engine, flag, body) == Some(image) && |image| <= lay.size
    requires flag % 2 == 1 && |body| % 16 != 0 && (|body| + 5) % 64 <= 55
    requires (a == lay.app || a == lay.bak) && m[a..a + |image|] == image
    ensures Check(hw, m, a, lay.size) == Runaway && PlanOf(hw, lay, m) == Hang
  {
    hide Check, Pack;
    PackFields(hw.engine, flag, body, image, m, a);
    PackSigned(hw, flag, body, image);
    CheckIsVerdict(hw, m, a, lay.size);
  }
}
