/** Which image a power-up runs and which slot it writes, said by the two checks and the two stored signatures alone. */
module Update {
  import opened Bytes
  import opened Options
  import opened NorFlash
  import opened Image
  import opened Boot
  import opened Recovery
  import opened ImageBuilder

  predicate Different(lay: Layout, m: Cells) {
    Signature(m, lay.app) != Signature(m, lay.bak)
  }

  /** Neither check hangs, and APP is good, or BAK is good and another image. */
  predicate Startable(hw: Hardware, lay: Layout, m: Cells) {
    && Check(hw, m, lay.app, lay.size) != Runaway && Check(hw, m, lay.bak, lay.size) != Runaway
    && (Check(hw, m, lay.app, lay.size) == Pass || (Check(hw, m, lay.bak, lay.size) == Pass && Different(lay, m)))
  }

  /** APP's image whenever APP is good. */
  function Preferred(hw: Hardware, lay: Layout, m: Cells): seq<byte> {
    ImageOf(m, if Check(hw, m, lay.app, lay.size) == Pass then lay.app else lay.bak)
  }

  /** A power-up writes to the chip exactly if it boots and the stored signatures differ, and it boots APP's image
      exactly if APP is good. */
  lemma BackupExactly(hw: Hardware, lay: Layout, m: Cells, cmds: seq<Command>)
    requires BootCommands(hw, lay, m, cmds)
    ensures cmds != [] <==> Startable(hw, lay, m) && Different(lay, m)
    ensures Bootable(hw, lay, m) <==> Startable(hw, lay, m)
    ensures Startable(hw, lay, m) ==> Firmware(hw, lay, m) == Preferred(hw, lay, m)
  {
    hide Check, Read;
  }

  /** After an uncut power-up the stored signatures agree, APP holds the preferred image, and if they differed before,
      BAK does as well. */
  lemma AfterPowerUp(hw: Hardware, lay: Layout, m: Cells, cmds: seq<Command>)
    requires BootCommands(hw, lay, m, cmds) && Startable(hw, lay, m)
    ensures var m' := Run(m, cmds);
      && !Different(lay, m') && Startable(hw, lay, m')
      && ImageOf(m', lay.app) == Preferred(hw, lay, m)
      && (Different(lay, m) ==> ImageOf(m', lay.bak) == Preferred(hw, lay, m))
  {
    hide Check, Read, BackupCommands;
    BackupExactly(hw, lay, m, cmds);
    var m' := Run(m, cmds);
    if Different(lay, m) {
      UncutBoot(hw, lay, m, cmds);
      ImageParts(m', lay.app);
      ImageParts(m', lay.bak);
    } else {
      assert m' == m;
    }
  }

  /** The ordinary update: APP holds a new built image, BAK whatever does not hang and has another signature. One uncut
      power-up puts the new image into both slots, and from then on the new firmware runs. */
  lemma Updated(hw: Hardware, lay: Layout, firmware: seq<byte>, image: seq<byte>, m: Cells, cmds: seq<Command>)
    requires GenImgFile(hw.engine, firmware) == Some(image) && |image| <= lay.size
    requires m[lay.app..lay.app + |image|] == image
    requires Check(hw, m, lay.bak, lay.size) != Runaway && Signature(m, lay.bak) != StoredSignature(image)
    requires BootCommands(hw, lay, m, cmds)
    ensures Code(hw, lay, m) == Padded(firmware)
    ensures var m' := Run(m, cmds);
      && m'[lay.app..lay.app + |image|] == image && m'[lay.bak..lay.bak + |image|] == image
      && PlanOf(hw, lay, m') == BootApp && Code(hw, lay, m') == Padded(firmware)
  {
    hide Check, Read, BootCommands, Padded, GenImgFile, StoredSignature;
    BuilderMeetsChecker(hw, firmware, image, m, lay.app, lay.size);
    ImageParts(m, lay.app);
    AfterPowerUp(hw, lay, m, cmds);
    var m' := Run(m, cmds);
    ReadInside(m', lay.app, |image|);
    ReadInside(m', lay.bak, |image|);
    TwoCopiesBoot(hw, lay, firmware, image, m');
  }
}
