/** Power cuts between chip commands: what every prefix of a backup leaves in flash, and what the next
    boot makes of it. */
module Recovery {
  import opened Bytes
  import opened Options
  import opened NorFlash
  import opened Sha256
  import opened Image
  import opened Boot

  // ---------------------------------------------- the cells after part of a backup

  /** An image written up to byte n over erased cells. */
  function Partial(image: seq<byte>, n: nat): (r: seq<byte>)
    requires n <= |image|
    ensures |r| == |image|
  {
    image[..n] + Fill(|image| - n, ERASED)
  }

  lemma HeaderPayload(to: nat, flag: byte, lengthBytes: seq<byte>)
    requires to % SECTOR_SIZE == 0 && |lengthBytes| == 4
    ensures Payload([PageProgram(to, [flag])], to) == Some([flag])
    ensures Payload([PageProgram(to, [flag]), PageProgram(to + 1, lengthBytes)], to) == Some([flag] + lengthBytes)
  {
    HeaderInPage(to);
    var c1, c2 := PageProgram(to, [flag]), PageProgram(to + 1, lengthBytes);
    PayloadSnoc([], to, c1);
    PayloadSnoc([c1], to, c2);
    assert [] + [c1] == [c1] && [] + [flag] == [flag] && [c1] + [c2] == [c1, c2];
  }

  /** After its erases a backup writes the image from its first byte on; the header takes two commands. */
  lemma CopyPayload(flag: byte, lengthBytes: seq<byte>, rest: seq<byte>, to: nat, cmds: seq<Command>, k: nat)
    returns (n: nat)
    requires CopyCommands(flag, lengthBytes, rest, to, 0, cmds)
    requires |lengthBytes| == 4 && to % SECTOR_SIZE == 0 && k <= |cmds|
    ensures n <= 5 + |rest|
    ensures Payload(cmds[..k], to) == Some(([flag] + lengthBytes + rest)[..n])
    ensures if k < 2 then n == k else n >= 5
    ensures k == |cmds| ==> n == 5 + |rest|
  {
    var header := [PageProgram(to, [flag]), PageProgram(to + 1, lengthBytes)];
    HeaderPayload(to, flag, lengthBytes);
    var image := [flag] + lengthBytes + rest;
    if k == 0 {
      n := 0;
    } else if k == 1 {
      n := 1;
      assert cmds[..1] == [header[0]] && image[..1] == [flag];
    } else {
      var body := cmds[2..];
      assert cmds[0 + 2..] == body;
      PayloadPrefix(body, to + 5, k - 2);
      PayloadConcat(header, body[..k - 2], to);
      assert cmds[..k] == header + body[..k - 2];
      var part := Payload(body[..k - 2], to + 5).value;
      n := 5 + |part|;
      assert part == rest[..|part|];
      assert image[..n] == [flag] + lengthBytes + part;
      if k == |cmds| {
        assert body[..k - 2] == body;
      }
    }
  }

  lemma ImageSplit(m: Cells, a: nat)
    ensures ImageOf(m, a) == [Flag(m, a)] + LengthBytes(m, a) + Read(m, a + 5, Length(m, a) + SHA256_LEN)
  {
  }

  /** The cells when a backup to `to` has been cut: untouched, header erased, or header and n - 5 more bytes written. */
  ghost predicate CopyState(m: Cells, m': Cells, image: seq<byte>, to: nat, size: nat, n: nat)
    requires to + size <= CHIP_SIZE && OVERHEAD <= |image| <= size && n <= |image|
  {
    && m'[..to] == m[..to] && m'[to + size..] == m[to + size..]
    && if n >= 5 then m'[to..to + |image|] == Partial(image, n)
       else m' == m || m'[to + 1..to + OVERHEAD] == Fill(OVERHEAD - 1, ERASED)
  }

  lemma SectorsFit(total: nat, size: nat)
    requires total <= size && size % SECTOR_SIZE == 0
    ensures total <= SECTOR_SIZE * Sectors(total) <= size
  {
  }

  lemma CutErase(m: Cells, image: seq<byte>, to: nat, size: nat, k: nat)
    requires Slot(to, size) && SECTOR_SIZE * k <= size && OVERHEAD <= |image| <= size
    ensures CopyState(m, Run(m, EraseCommands(to, k)), image, to, size, 0)
    ensures k > 0 ==> Run(m, EraseCommands(to, k))[to + 1..to + OVERHEAD] == Fill(OVERHEAD - 1, ERASED)
  {
    EraseEffect(m, to, k);
    var r := Run(m, EraseCommands(to, k));
    assert r[..to] == m[..to] && r[to + size..] == m[to + size..];
    if k > 0 {
      assert r[to + 1..to + OVERHEAD] == Fill(OVERHEAD - 1, ERASED);
    }
  }

  /** Bytes programmed over erased sectors read back as programmed. */
  lemma CutWrite(m: Cells, image: seq<byte>, to: nat, size: nat, len: nat, n: nat)
    requires to + size <= CHIP_SIZE && OVERHEAD <= |image| <= len <= size
    requires n <= |image| && (n < 5 ==> n <= 1)
    ensures CopyState(m, Overlaid(Wiped(m, to, len), to, image[..n]), image, to, size, n)
  {
    var r := Overlaid(Wiped(m, to, len), to, image[..n]);
    assert r[..to] == m[..to] && r[to + size..] == m[to + size..];
    if n >= 5 {
      assert r[to..to + |image|] == Partial(image, n);
    } else {
      assert r[to + 1..to + OVERHEAD] == Fill(OVERHEAD - 1, ERASED);
    }
  }

  /** Every prefix of an uninterrupted backup leaves one of these states; the whole of it leaves the image. */
  lemma CopyStates(m: Cells, from: nat, to: nat, size: nat, cmds: seq<Command>, k: nat) returns (n: nat)
    requires Slot(to, size) && Length(m, from) + OVERHEAD <= size
    requires BackupCommands(m, from, to, Sectors(Length(m, from) + OVERHEAD), cmds)
    requires k <= |cmds|
    ensures n <= Length(m, from) + OVERHEAD
    ensures CopyState(m, Run(m, cmds[..k]), ImageOf(m, from), to, size, n)
    ensures k == |cmds| ==> n == Length(m, from) + OVERHEAD
  {
    var total := Length(m, from) + OVERHEAD;
    var erased := Sectors(total);
    SectorsFit(total, size);
    if k <= erased {
      n := 0;
      assert cmds[..k] == cmds[..erased][..k];
      EraseCommandsPrefix(to, erased, k);
      CutErase(m, ImageOf(m, from), to, size, k);
    } else {
      var writes := cmds[erased..];
      assert writes[..0] == EraseCommands(to, 0) && writes[0 + 2..] == cmds[erased + 2..];
      ImageSplit(m, from);
      n := CopyPayload(Flag(m, from), LengthBytes(m, from), Read(m, from + 5, Length(m, from) + SHA256_LEN),
                       to, writes, k - erased);
      assert cmds[..k] == cmds[..erased] + writes[..k - erased];
      AfterErase(m, ImageOf(m, from), to, size, erased, writes[..k - erased], n);
    }
  }

  lemma AfterErase(m: Cells, image: seq<byte>, to: nat, size: nat, erased: nat, writes: seq<Command>, n: nat)
    requires Slot(to, size) && OVERHEAD <= |image| <= SECTOR_SIZE * erased <= size
    requires n <= |image| && (n < 5 ==> n <= 1)
    requires Payload(writes, to) == Some(image[..n])
    ensures CopyState(m, Run(m, EraseCommands(to, erased) + writes), image, to, size, n)
  {
    RunConcat(m, EraseCommands(to, erased), writes);
    EraseEffect(m, to, erased);
    WriteEffect(Wiped(m, to, SECTOR_SIZE * erased), writes, to);
    CutWrite(m, image, to, size, SECTOR_SIZE * erased, n);
  }

  // ------------------------------------------------ what the next check makes of it

  const BLANK: Digest := Fill(SHA256_LEN, ERASED)

  /** A length of all ones points back at the bytes after the header. */
  lemma ReadWrapped(m: Cells, to: nat, n: nat)
    requires to + 4 + n <= CHIP_SIZE
    ensures Read(m, to + 5 + (UINT32_LIMIT - 1), n) == m[to + 4..to + 4 + n]
  {
    var r := Read(m, to + 5 + (UINT32_LIMIT - 1), n);
    forall j | 0 <= j < n
      ensures r[j] == m[to + 4..to + 4 + n][j]
    {
      assert to + 5 + (UINT32_LIMIT - 1) + j == to + 4 + j + 256 * CHIP_SIZE;
    }
  }

  lemma BlankSlice(m: seq<byte>, to: nat)
    requires to + OVERHEAD <= |m| && m[to + 1..to + OVERHEAD] == Fill(OVERHEAD - 1, ERASED)
    ensures m[to + 4..to + 4 + SHA256_LEN] == BLANK
  {
    forall j | 0 <= j < SHA256_LEN
      ensures m[to + 4..to + 4 + SHA256_LEN][j] == BLANK[j]
    {
      assert m[to + 4 + j] == m[to + 1..to + OVERHEAD][3 + j];
    }
  }

  /** With its header erased a slot reads as oversize, and its length points back at erased bytes. */
  lemma BlankHeader(hw: Hardware, m: Cells, to: nat, size: nat)
    requires Slot(to, size)
    requires m[to + 1..to + OVERHEAD] == Fill(OVERHEAD - 1, ERASED)
    ensures Check(hw, m, to, size) == Oversize
    ensures Signature(m, to) == BLANK
  {
    ReadInside(m, to + 1, OVERHEAD - 1);
    assert Read(m, to + 1, OVERHEAD - 1)[..4] == LengthBytes(m, to);
    assert LengthBytes(m, to) == Fill(4, ERASED);
    assert Length(m, to) == UINT32_LIMIT - 1;
    ReadWrapped(m, to, SHA256_LEN);
    BlankSlice(m, to);
  }

  /** A slot that starts with a partly written image has the header of that image. */
  lemma PartialStart(image: seq<byte>, n: nat)
    requires 5 <= n <= |image|
    ensures |Partial(image, n)| == |image| && Partial(image, n)[..5] == image[..5]
  {
  }

  lemma PartialImage(m: Cells, from: nat, m': Cells, to: nat, n: nat)
    requires 5 <= n <= Length(m, from) + OVERHEAD
    requires to + Length(m, from) + OVERHEAD <= CHIP_SIZE
    requires m'[to..to + Length(m, from) + OVERHEAD] == Partial(ImageOf(m, from), n)
    ensures Length(m', to) == Length(m, from)
    ensures ImageOf(m', to) == Partial(ImageOf(m, from), n)
  {
    hide U32, Partial;
    var total := Length(m, from) + OVERHEAD;
    var image := ImageOf(m, from);
    PartialStart(image, n);
    ReadInside(m', to, total);
    assert Read(m', to, total)[..5] == image[..5];
    assert LengthBytes(m', to) == Read(m', to, total)[..5][1..];
    assert LengthBytes(m, from) == image[..5][1..];
  }

  /** A partly written signature is blank, or differs from the whole one, or everything is already in place. */
  lemma PartialSignature(image: seq<byte>, n: nat)
    requires OVERHEAD <= |image| && n <= |image|
    ensures StoredSignature(Partial(image, n)) == BLANK
         || (StoredSignature(Partial(image, n)) == StoredSignature(image) ==> Partial(image, n) == image)
  {
    var signed := |image| - SHA256_LEN;
    if n <= signed {
      assert StoredSignature(Partial(image, n)) == BLANK;
    } else {
      assert Partial(image, n) == Partial(image, n)[..signed] + StoredSignature(Partial(image, n));
      assert image == image[..signed] + StoredSignature(image);
      assert Partial(image, n)[..signed] == image[..signed];
    }
  }

  /** However far a copy of a good image got, its slot does not hang the check, and its signature
      equals the source's only when the whole image does. */
  lemma HalfCopied(hw: Hardware, m: Cells, m': Cells, from: nat, to: nat, size: nat, n: nat)
    requires Slot(from, size) && Slot(to, size)
    requires Check(hw, m, from, size) == Pass && n <= Length(m, from) + OVERHEAD
    requires CopyState(m, m', ImageOf(m, from), to, size, n) && m' != m
    ensures Check(hw, m', to, size) != Runaway
    ensures Signature(m, from) != BLANK && Signature(m', to) == Signature(m, from) ==> Check(hw, m', to, size) == Pass
    ensures Check(hw, m', to, size) == Pass ==>
      5 <= n && Length(m', to) == Length(m, from) && ImageOf(m', to) == Partial(ImageOf(m, from), n)
  {
    var image := ImageOf(m, from);
    ImageParts(m, from);
    CheckIsVerdict(hw, m, from, size);
    if n < 5 {
      BlankHeader(hw, m', to, size);
    } else {
      PartialImage(m, from, m', to, n);
      ImageParts(m', to);
      CheckIsVerdict(hw, m', to, size);
      PartialSignature(image, n);
    }
  }

  /** The whole backup makes the two images equal. */
  lemma FullyCopied(hw: Hardware, m: Cells, m': Cells, from: nat, to: nat, size: nat)
    requires Slot(from, size) && Slot(to, size)
    requires Check(hw, m, from, size) == Pass
    requires CopyState(m, m', ImageOf(m, from), to, size, Length(m, from) + OVERHEAD)
    ensures ImageOf(m', to) == ImageOf(m, from) && Check(hw, m', to, size) == Pass
    ensures Signature(m', to) == Signature(m, from)
  {
    var image := ImageOf(m, from);
    assert Partial(image, |image|) == image;
    PartialImage(m, from, m', to, |image|);
    ImageParts(m, from);
    ImageParts(m', to);
    CheckIsVerdict(hw, m, from, size);
    CheckIsVerdict(hw, m', to, size);
  }

  // --------------------------------------------------------------- whole runs

  /** The commands of a power-up that nothing interrupts. */
  ghost predicate BootCommands(hw: Hardware, lay: Layout, m: Cells, cmds: seq<Command>)
  {
    match PlanOf(hw, lay, m)
    case AppToBak => BackupCommands(m, lay.app, lay.bak, Sectors(Length(m, lay.app) + OVERHEAD), cmds)
    case BakToApp => BackupCommands(m, lay.bak, lay.app, Sectors(Length(m, lay.bak) + OVERHEAD), cmds)
    case _ => cmds == []
  }

  /** The commands `PowerUp` issues are those of an uninterrupted power-up when no Ctrl-C comes. */
  lemma UninterruptedBoot(hw: Hardware, lay: Layout, m: Cells, ctrlc: nat -> bool, erased: nat, cmds: seq<Command>)
    requires forall i: nat :: !ctrlc(i)
    requires match PlanOf(hw, lay, m)
             case AppToBak => Copied(m, lay.app, lay.bak, ctrlc, erased, cmds)
             case BakToApp => Copied(m, lay.bak, lay.app, ctrlc, erased, cmds)
             case _ => cmds == []
    ensures BootCommands(hw, lay, m, cmds)
  {
  }

  /** A power-up that loses power after `k` of its commands, or after all of them. */
  ghost predicate CutBoot(hw: Hardware, lay: Layout, m: Cells, m': Cells)
  {
    exists cmds, k | 0 <= k <= |cmds| :: BootCommands(hw, lay, m, cmds) && m' == Run(m, cmds[..k])
  }

  /** Any number of power-ups, each cut anywhere. */
  ghost predicate CutBoots(hw: Hardware, lay: Layout, run: seq<Cells>)
  {
    && run != []
    && forall i :: 0 <= i < |run| - 1 ==> CutBoot(hw, lay, run[i], run[i + 1])
  }

  /** `main` reaches `go_boot`. */
  predicate Bootable(hw: Hardware, lay: Layout, m: Cells)
  {
    !PlanOf(hw, lay, m).Hang? && !PlanOf(hw, lay, m).Fail?
  }

  /** Bootable, and if only BAK is good its signature cannot be mistaken for erased cells. */
  predicate Recoverable(hw: Hardware, lay: Layout, m: Cells)
  {
    Bootable(hw, lay, m) && (PlanOf(hw, lay, m).BakToApp? ==> Signature(m, lay.bak) != BLANK)
  }

  /** Some good slot is not enough: it must be APP, or BAK with another signature than APP's. */
  lemma BootableExactly(hw: Hardware, lay: Layout, m: Cells)
    ensures Bootable(hw, lay, m) <==>
      && Check(hw, m, lay.app, lay.size) != Runaway && Check(hw, m, lay.bak, lay.size) != Runaway
      && (Check(hw, m, lay.app, lay.size) == Pass
          || (Check(hw, m, lay.bak, lay.size) == Pass && Signature(m, lay.app) != Signature(m, lay.bak)))
  {
  }

  /** A cut boot leaves the source slot alone and the target slot in one of the states above. */
  lemma CutBackup(m: Cells, from: nat, to: nat, size: nat, cmds: seq<Command>, k: nat) returns (n: nat)
    requires Slot(from, size) && Slot(to, size) && Disjoint(from, to, size)
    requires Length(m, from) + OVERHEAD <= size
    requires BackupCommands(m, from, to, Sectors(Length(m, from) + OVERHEAD), cmds)
    requires k <= |cmds|
    ensures n <= Length(m, from) + OVERHEAD && (k == |cmds| ==> n == Length(m, from) + OVERHEAD)
    ensures CopyState(m, Run(m, cmds[..k]), ImageOf(m, from), to, size, n)
    ensures SameSlot(m, Run(m, cmds[..k]), from, size)
  {
    n := CopyStates(m, from, to, size, cmds, k);
    OtherSlot(m, Run(m, cmds[..k]), from, to, size);
  }

  lemma OtherSlot(m: Cells, m': Cells, from: nat, to: nat, size: nat)
    requires from + size <= CHIP_SIZE && to + size <= CHIP_SIZE && Disjoint(from, to, size)
    requires m'[..to] == m[..to] && m'[to + size..] == m[to + size..]
    ensures SameSlot(m, m', from, size)
  {
    forall i | from <= i < from + size
      ensures m'[i] == m[i]
    {
      if from + size <= to {
        assert m'[i] == m'[..to][i] == m[..to][i];
      } else {
        assert m'[i] == m'[to + size..][i - to - size] == m[to + size..][i - to - size];
      }
    }
  }

  /** No unfinished copy of the image passes the check by accident. */
  predicate TamperEvident(hw: Hardware, image: seq<byte>)
    requires OVERHEAD <= |image|
  {
    forall n :: 5 <= n <= |image| && ImageVerdict(hw, Partial(image, n)) == Pass ==> Partial(image, n) == image
  }

  lemma CutAppToBak(hw: Hardware, lay: Layout, m: Cells, cmds: seq<Command>, k: nat)
    requires PlanOf(hw, lay, m).AppToBak? && k <= |cmds|
    requires BackupCommands(m, lay.app, lay.bak, Sectors(Length(m, lay.app) + OVERHEAD), cmds)
    ensures Recoverable(hw, lay, Run(m, cmds[..k]))
    ensures Firmware(hw, lay, Run(m, cmds[..k])) == ImageOf(m, lay.app)
  {
    hide Check, BackupCommands, Run, TamperEvident, StoredSignature;
    SourceFits(hw, lay, m);
    var n := CutBackup(m, lay.app, lay.bak, lay.size, cmds, k);
    var m' := Run(m, cmds[..k]);
    CheckFrame(hw, m, m', lay.app, lay.size);
    if m' != m {
      HalfCopied(hw, m, m', lay.app, lay.bak, lay.size, n);
    }
  }

  lemma CutBakToApp(hw: Hardware, lay: Layout, m: Cells, cmds: seq<Command>, k: nat)
    requires PlanOf(hw, lay, m).BakToApp? && Signature(m, lay.bak) != BLANK && k <= |cmds|
    requires BackupCommands(m, lay.bak, lay.app, Sectors(Length(m, lay.bak) + OVERHEAD), cmds)
    ensures Recoverable(hw, lay, Run(m, cmds[..k]))
    ensures TamperEvident(hw, ImageOf(m, lay.bak)) ==> Firmware(hw, lay, Run(m, cmds[..k])) == ImageOf(m, lay.bak)
  {
    SourceFits(hw, lay, m);
    var n := CutBackup(m, lay.bak, lay.app, lay.size, cmds, k);
    var m' := Run(m, cmds[..k]);
    CheckFrame(hw, m, m', lay.bak, lay.size);
    if m' != m {
      HalfCopied(hw, m, m', lay.bak, lay.app, lay.size, n);
      if Check(hw, m', lay.app, lay.size) == Pass {
        CheckIsVerdict(hw, m', lay.app, lay.size);
      }
    }
  }

  /** The slot an image is copied from holds an image that fits. */
  lemma SourceFits(hw: Hardware, lay: Layout, m: Cells)
    ensures PlanOf(hw, lay, m).AppToBak? ==> Length(m, lay.app) + OVERHEAD <= lay.size
    ensures PlanOf(hw, lay, m).BakToApp? ==> Length(m, lay.bak) + OVERHEAD <= lay.size
  {
  }

  /** One cut boot keeps the flash recoverable, and keeps the firmware unless a half-made copy passes the check. */
  lemma CutBootKeeps(hw: Hardware, lay: Layout, m: Cells, m': Cells)
    requires Recoverable(hw, lay, m) && CutBoot(hw, lay, m, m')
    ensures Recoverable(hw, lay, m')
    ensures TamperEvident(hw, Firmware(hw, lay, m)) ==> Firmware(hw, lay, m') == Firmware(hw, lay, m)
  {
    hide Check, Signature, ImageOf, BackupCommands, TamperEvident;
    var cmds, k :| 0 <= k <= |cmds| && BootCommands(hw, lay, m, cmds) && m' == Run(m, cmds[..k]);
    if PlanOf(hw, lay, m).AppToBak? {
      CutAppToBak(hw, lay, m, cmds, k);
    } else if PlanOf(hw, lay, m).BakToApp? {
      CutBakToApp(hw, lay, m, cmds, k);
    }
  }

  /** What every step keeps holds at the end of every run. */
  lemma {:induction false} RunKeeps(run: seq<Cells>, step: (Cells, Cells) -> bool, inv: Cells -> bool)
    requires run != [] && inv(run[0])
    requires forall i :: 0 <= i < |run| - 1 ==> step(run[i], run[i + 1])
    requires forall m, m' :: inv(m) && step(m, m') ==> inv(m')
    ensures inv(run[|run| - 1])
    decreases |run|
  {
    if |run| > 1 {
      RunKeeps(run[..|run| - 1], step, inv);
      assert step(run[|run| - 2], run[|run| - 2 + 1]);
    }
  }

  /** Crash safety: no number of power cuts, wherever they fall, takes a recoverable flash to one that fails to boot. */
  lemma CutBootsKeep(hw: Hardware, lay: Layout, run: seq<Cells>)
    requires CutBoots(hw, lay, run)
    requires Recoverable(hw, lay, run[0])
    ensures Recoverable(hw, lay, run[|run| - 1])
  {
    var step := (m: Cells, m': Cells) => CutBoot(hw, lay, m, m');
    var inv := (m: Cells) => Recoverable(hw, lay, m);
    forall m, m' | inv(m) && step(m, m')
      ensures inv(m')
    {
      CutBootKeeps(hw, lay, m, m');
    }
    RunKeeps(run, step, inv);
  }

  /** However often power fails, the firmware that is booted in the end is the one chosen at first. */
  lemma SameFirmware(hw: Hardware, lay: Layout, run: seq<Cells>)
    requires CutBoots(hw, lay, run)
    requires Recoverable(hw, lay, run[0]) && TamperEvident(hw, Firmware(hw, lay, run[0]))
    ensures Firmware(hw, lay, run[|run| - 1]) == Firmware(hw, lay, run[0])
  {
    var image := Firmware(hw, lay, run[0]);
    var step := (m: Cells, m': Cells) => CutBoot(hw, lay, m, m');
    var inv := (m: Cells) => Recoverable(hw, lay, m) && Firmware(hw, lay, m) == image;
    forall m, m' | inv(m) && step(m, m')
      ensures inv(m')
    {
      CutBootKeeps(hw, lay, m, m');
    }
    RunKeeps(run, step, inv);
  }

  lemma PieceAlone(addr: nat, data: seq<byte>)
    requires Piece(PageProgram(addr, data))
    ensures Payload([PageProgram(addr, data)], addr) == Some(data)
  {
    PayloadSnoc([], addr, PageProgram(addr, data));
    assert [] + [PageProgram(addr, data)] == [PageProgram(addr, data)] && [] + data == data;
  }

  /** Some command list is a backup. */
  lemma BackupExists(m: Cells, from: nat, to: nat, erased: nat) returns (cmds: seq<Command>)
    requires to % SECTOR_SIZE == 0
    ensures BackupCommands(m, from, to, erased, cmds)
  {
    var rest := Read(m, from + 5, Length(m, from) + SHA256_LEN);
    HeaderInPage(to);
    PieceAlone(to, [Flag(m, from)]);
    PieceAlone(to + 1, LengthBytes(m, from));
    var c1, c2 := [PageProgram(to, [Flag(m, from)])], [PageProgram(to + 1, LengthBytes(m, from))];
    var c3 := PayloadExists(to + 5, rest);
    CopyParts(Flag(m, from), LengthBytes(m, from), rest, to, erased, c1, c2, c3);
    cmds := EraseCommands(to, erased) + c1 + c2 + c3;
  }

  /** BAK alone is good and its signature is all ones: a cut after the first erase is fatal. */
  lemma BlankSignatureIsFatal(hw: Hardware, lay: Layout, m: Cells) returns (m': Cells)
    requires PlanOf(hw, lay, m).BakToApp? && Signature(m, lay.bak) == BLANK
    ensures CutBoot(hw, lay, m, m') && !Bootable(hw, lay, m')
  {
    var erased := Sectors(Length(m, lay.bak) + OVERHEAD);
    var cmds := BackupExists(m, lay.bak, lay.app, erased);
    m' := Run(m, cmds[..1]);
    assert BootCommands(hw, lay, m, cmds);
    FirstErase(hw, lay, m, cmds, erased);
  }

  lemma FirstErase(hw: Hardware, lay: Layout, m: Cells, cmds: seq<Command>, erased: nat)
    requires 1 <= erased <= |cmds| && cmds[..erased] == EraseCommands(lay.app, erased)
    requires PlanOf(hw, lay, m).BakToApp? && Signature(m, lay.bak) == BLANK
    ensures !Bootable(hw, lay, Run(m, cmds[..1]))
  {
    assert cmds[..1] == cmds[..erased][..1];
    EraseCommandsPrefix(lay.app, erased, 1);
    SourceFits(hw, lay, m);
    CutErase(m, ImageOf(m, lay.bak), lay.app, lay.size, 1);
    var m' := Run(m, cmds[..1]);
    BlankHeader(hw, m', lay.app, lay.size);
    OtherSlot(m, m', lay.bak, lay.app, lay.size);
    CheckFrame(hw, m, m', lay.bak, lay.size);
  }

  /** The exact condition: every flash that any run of cut boots can reach is bootable
      if and only if the first one is recoverable. */
  lemma RecoverableExactly(hw: Hardware, lay: Layout, m: Cells)
    ensures Recoverable(hw, lay, m) <==>
      (forall run :: CutBoots(hw, lay, run) && run[0] == m ==> Bootable(hw, lay, run[|run| - 1]))
  {
    if Recoverable(hw, lay, m) {
      forall run | CutBoots(hw, lay, run) && run[0] == m
        ensures Bootable(hw, lay, run[|run| - 1])
      {
        CutBootsKeep(hw, lay, run);
      }
    } else if !Bootable(hw, lay, m) {
      assert CutBoots(hw, lay, [m]);
    } else {
      var m' := BlankSignatureIsFatal(hw, lay, m);
      assert CutBoots(hw, lay, [m, m']);
    }
  }

  lemma BothGood(hw: Hardware, lay: Layout, m: Cells)
    requires Check(hw, m, lay.app, lay.size) == Pass && Check(hw, m, lay.bak, lay.size) == Pass
    requires Signature(m, lay.app) == Signature(m, lay.bak)
    ensures PlanOf(hw, lay, m) == BootApp && Firmware(hw, lay, m) == ImageOf(m, lay.app)
  {
  }

  /** A boot that copied and was not cut leaves both slots with the booted image: the next boot writes nothing. */
  lemma UncutBoot(hw: Hardware, lay: Layout, m: Cells, cmds: seq<Command>)
    requires BootCommands(hw, lay, m, cmds)
    requires PlanOf(hw, lay, m).AppToBak? || PlanOf(hw, lay, m).BakToApp?
    ensures var m' := Run(m, cmds);
      && PlanOf(hw, lay, m') == BootApp
      && ImageOf(m', lay.app) == Firmware(hw, lay, m') == Firmware(hw, lay, m)
      && ImageOf(m', lay.bak) == Firmware(hw, lay, m)
  {
    hide Check, BackupCommands, Run;
    SourceFits(hw, lay, m);
    if PlanOf(hw, lay, m).AppToBak? {
      UncutCopy(hw, lay, m, lay.app, lay.bak, cmds);
    } else {
      UncutCopy(hw, lay, m, lay.bak, lay.app, cmds);
    }
    BothGood(hw, lay, Run(m, cmds));
  }

  lemma UncutCopy(hw: Hardware, lay: Layout, m: Cells, from: nat, to: nat, cmds: seq<Command>)
    requires Slot(from, lay.size) && Slot(to, lay.size) && Disjoint(from, to, lay.size)
    requires Check(hw, m, from, lay.size) == Pass
    requires BackupCommands(m, from, to, Sectors(Length(m, from) + OVERHEAD), cmds)
    ensures var m' := Run(m, cmds);
      && Check(hw, m', from, lay.size) == Pass && Check(hw, m', to, lay.size) == Pass
      && Signature(m', from) == Signature(m', to)
      && ImageOf(m', from) == ImageOf(m', to) == ImageOf(m, from)
  {
    assert cmds[..|cmds|] == cmds;
    var n := CutBackup(m, from, to, lay.size, cmds, |cmds|);
    CheckFrame(hw, m, Run(m, cmds), from, lay.size);
    FullyCopied(hw, m, Run(m, cmds), from, to, lay.size);
  }

  // ------------------------------------------------------------------ containment

  /** Whether or not Ctrl-C stopped the erase, and wherever power fails, no byte outside the target slot changes. */
  lemma Contained(m: Cells, from: nat, to: nat, size: nat, erased: nat, cmds: seq<Command>, k: nat)
    requires Slot(to, size) && Length(m, from) + OVERHEAD <= size
    requires erased <= Sectors(Length(m, from) + OVERHEAD)
    requires BackupCommands(m, from, to, erased, cmds) && k <= |cmds|
    ensures var m' := Run(m, cmds[..k]);
      m'[..to] == m[..to] && m'[to + size..] == m[to + size..]
  {
    var total := Length(m, from) + OVERHEAD;
    SectorsFit(total, size);
    if k <= erased {
      assert cmds[..k] == cmds[..erased][..k];
      EraseCommandsPrefix(to, erased, k);
      CutErase(m, ImageOf(m, from), to, size, k);
    } else {
      var writes := cmds[erased..];
      assert writes[..0] == EraseCommands(to, 0) && writes[0 + 2..] == cmds[erased + 2..];
      var n := CopyPayload(Flag(m, from), LengthBytes(m, from), Read(m, from + 5, Length(m, from) + SHA256_LEN),
                           to, writes, k - erased);
      assert cmds[..k] == cmds[..erased] + writes[..k - erased];
      OutsideWrite(m, to, size, erased, writes[..k - erased]);
    }
  }

  lemma OutsideWrite(m: Cells, to: nat, size: nat, erased: nat, writes: seq<Command>)
    requires Slot(to, size) && SECTOR_SIZE * erased <= size
    requires Payload(writes, to).Some? && |Payload(writes, to).value| <= size
    ensures var m' := Run(m, EraseCommands(to, erased) + writes);
      m'[..to] == m[..to] && m'[to + size..] == m[to + size..]
  {
    RunConcat(m, EraseCommands(to, erased), writes);
    EraseEffect(m, to, erased);
    WriteEffect(Wiped(m, to, SECTOR_SIZE * erased), writes, to);
  }

  /** Every program of a backup stays in its page and takes at most 32 bytes. */
  lemma EveryPiece(m: Cells, from: nat, to: nat, erased: nat, cmds: seq<Command>)
    requires to % SECTOR_SIZE == 0
    requires BackupCommands(m, from, to, erased, cmds)
    ensures forall i :: erased <= i < |cmds| ==> Piece(cmds[i])
  {
    HeaderInPage(to);
    PayloadPieces(cmds[erased + 2..], to + 5);
    assert forall i :: erased + 2 <= i < |cmds| ==> cmds[i] == cmds[erased + 2..][i - erased - 2];
  }

  lemma {:induction false} PayloadPieces(cmds: seq<Command>, addr: nat)
    requires Payload(cmds, addr).Some?
    ensures forall i :: 0 <= i < |cmds| ==> Piece(cmds[i])
    decreases |cmds|
  {
    if cmds != [] {
      PayloadPieces(cmds[..|cmds| - 1], addr);
    }
  }
}
