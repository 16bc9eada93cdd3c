/** From the build to the repair: a chip flashed with built images whose APP slot is then damaged. */
module SelfRepair {
  import opened Bytes
  import opened Options
  import opened NorFlash
  import opened Image
  import opened Boot
  import opened Recovery
  import opened ImageBuilder

  /** BAK holds a built image; APP holds anything that neither passes the check nor carries the same signature. */
  predicate DamagedApp(hw: Hardware, lay: Layout, firmware: seq<byte>, image: seq<byte>, m: Cells) {
    && GenImgFile(hw.engine, firmware) == Some(image) && |image| <= lay.size
    && m[lay.bak..lay.bak + |image|] == image
    && (Check(hw, m, lay.app, lay.size) == Oversize || Check(hw, m, lay.app, lay.size) == BadSignature)
    && Signature(m, lay.app) != StoredSignature(image) && StoredSignature(image) != BLANK
  }

  /** Such a chip runs the firmware from BAK at once. */
  lemma RunsBackup(hw: Hardware, lay: Layout, firmware: seq<byte>, image: seq<byte>, m: Cells)
    requires DamagedApp(hw, lay, firmware, image, m)
    ensures PlanOf(hw, lay, m) == BakToApp && Recoverable(hw, lay, m)
    ensures Firmware(hw, lay, m) == image && Code(hw, lay, m) == Padded(firmware)
  {
    hide Check, Padded, GenImgFile;
    BuilderMeetsChecker(hw, firmware, image, m, lay.bak, lay.size);
    ImageParts(m, lay.bak);
  }

  /** The first power-up that is not cut restores APP byte for byte; from then on both slots hold the built image and
      power-ups run the firmware from APP without writing. */
  lemma Repaired(hw: Hardware, lay: Layout, firmware: seq<byte>, image: seq<byte>, m: Cells, cmds: seq<Command>)
    requires DamagedApp(hw, lay, firmware, image, m) && BootCommands(hw, lay, m, cmds)
    ensures var m' := Run(m, cmds);
      && m'[lay.app..lay.app + |image|] == image && m'[lay.bak..lay.bak + |image|] == image
      && PlanOf(hw, lay, m') == BootApp && Code(hw, lay, m') == Padded(firmware)
  {
    hide Check, Padded, GenImgFile, BootCommands, PlanOf, Code, Run, ImageOf, Signature, StoredSignature, Firmware;
    RunsBackup(hw, lay, firmware, image, m);
    UncutBoot(hw, lay, m, cmds);
    var m' := Run(m, cmds);
    InPlace(m', lay.app, image);
    InPlace(m', lay.bak, image);
    TwoCopiesBoot(hw, lay, firmware, image, m');
  }

  /** However often power fails before that, the chip still boots. */
  lemma BootsMeanwhile(hw: Hardware, lay: Layout, firmware: seq<byte>, image: seq<byte>, run: seq<Cells>)
    requires CutBoots(hw, lay, run) && DamagedApp(hw, lay, firmware, image, run[0])
    ensures Bootable(hw, lay, run[|run| - 1])
    ensures TamperEvident(hw, image) ==> Firmware(hw, lay, run[|run| - 1]) == image
  {
    RunsBackup(hw, lay, firmware, image, run[0]);
    CutBootsKeep(hw, lay, run);
    if TamperEvident(hw, image) {
      SameFirmware(hw, lay, run);
    }
  }
}
