/** main.c: image check, compare and backup, and the boot decision, over one chip and the RAM at `_boot`. */
module Boot {
  import opened Bytes
  import opened Options
  import opened NorFlash
  import opened Sha256
  import opened Cbc
  import opened Image

  datatype Plan = Hang | Fail | BootApp | AppToBak | BakToApp

  function Decide(bak: Verdict, app: Verdict, different: bool): Plan {
    if bak.Runaway? || app.Runaway? then Hang
    else if different then
      if app.Pass? then AppToBak else if bak.Pass? then BakToApp else Fail
    else if app.Pass? then BootApp else Fail
  }

  /** What one power-up decides to do, from the cells it starts with. */
  function PlanOf(hw: Hardware, lay: Layout, m: Cells): Plan
  {
    Decide(Check(hw, m, lay.bak, lay.size), Check(hw, m, lay.app, lay.size),
           Signature(m, lay.app) != Signature(m, lay.bak))
  }

  /** The slot whose image ends up in RAM. */
  function Chosen(hw: Hardware, lay: Layout, m: Cells): nat
  {
    if PlanOf(hw, lay, m).BakToApp? then lay.bak else lay.app
  }

  function Firmware(hw: Hardware, lay: Layout, m: Cells): (image: seq<byte>)
    ensures OVERHEAD <= |image|
  {
    ImageOf(m, Chosen(hw, lay, m))
  }

  /** The code `go_boot` jumps to: a backup reloads the raw bytes over what the check left in RAM. */
  function Code(hw: Hardware, lay: Layout, m: Cells): seq<byte>
  {
    if PlanOf(hw, lay, m).BootApp? then Plain(hw, m, lay.app) else Body(m, Chosen(hw, lay, m))
  }

  /** What runs is the deciphered body of a verified image, except that an encrypted image
      that has just been copied runs as ciphertext. */
  lemma CodeIsPlain(hw: Hardware, lay: Layout, m: Cells)
    requires !PlanOf(hw, lay, m).Hang? && !PlanOf(hw, lay, m).Fail?
    ensures var a := Chosen(hw, lay, m);
      && Check(hw, m, a, lay.size) == Pass
      && (Code(hw, lay, m) == Plain(hw, m, a) <==>
          || PlanOf(hw, lay, m) == BootApp || Flag(m, a) % 2 == 0
          || Decrypted(hw.unblock, ZERO_IV, Body(m, a)) == Body(m, a))
  {
  }

  /** `cmds` erases `erased` sectors at `to` and then writes an image there: header first, signature last. */
  ghost predicate CopyCommands(flag: byte, lengthBytes: seq<byte>, rest: seq<byte>,
                               to: nat, erased: nat, cmds: seq<Command>) {
    && erased + 2 <= |cmds|
    && cmds[..erased] == EraseCommands(to, erased)
    && cmds[erased] == PageProgram(to, [flag])
    && cmds[erased + 1] == PageProgram(to + 1, lengthBytes)
    && Payload(cmds[erased + 2..], to + 5) == Some(rest)
  }

  /** `cmds` copies the image at `from`. */
  ghost predicate BackupCommands(m: Cells, from: nat, to: nat, erased: nat, cmds: seq<Command>) {
    CopyCommands(Flag(m, from), LengthBytes(m, from), Read(m, from + 5, Length(m, from) + SHA256_LEN), to, erased, cmds)
  }

  datatype Outcome = Booted | Failed | Hung

  class Loader {
    const hw: Hardware
    const chip: Chip
    const ram: array<byte>

    constructor (hw: Hardware, chip: Chip, ram: array<byte>)
      ensures this.hw == hw && this.chip == chip && this.ram == ram
    {
      this.hw, this.chip, this.ram := hw, chip, ram;
    }

    /** Decryption in place, one block at a time; the AES unit keeps the previous cipher block. */
    method Decipher(length: nat)
      requires length <= ram.Length && length % 16 == 0
      modifies ram
      ensures ram[..length] == Decrypted(hw.unblock, ZERO_IV, old(ram[..length]))
      ensures ram[length..] == old(ram[length..])
    {
      hide Decrypted, LastBlock, XorBlock;
      var chain := ZERO_IV;
      ghost var was := ram[..];
      NothingDeciphered(hw.unblock, was);
      ghost var k, n, plain := 0, length / 16, [];
      var codesLength, done := length, 0;
      while codesLength > 0
        invariant k <= n && length == 16 * n && done == 16 * k && codesLength == 16 * (n - k)
        invariant |plain| == done && plain == Decrypted(hw.unblock, ZERO_IV, was[..done])
        invariant ram[..] == plain + was[done..]
        invariant chain == LastBlock(ZERO_IV, was[..done])
      {
        var block := ram[done..done + 16];
        assert block == ram[..][done..][..16] == was[done..][..16] == was[done..done + 16];
        var output := XorBlock(hw.unblock(block), chain);
        DecipherStep(hw.unblock, was, done, block);
        Store(done, output);
        Stored(plain, output, was, done);
        plain := plain + output;
        chain := block;
        k, done := k + 1, done + 16;
        codesLength := codesLength - 16;
      }
      assert ram[..length] == plain;
      assert ram[length..] == was[length..];
    }

    static lemma NothingDeciphered(dec: Cipher, was: seq<byte>)
      ensures Decrypted(dec, ZERO_IV, was[..0]) == [] && LastBlock(ZERO_IV, was[..0]) == ZERO_IV
    {
    }

    static lemma Stored(plain: seq<byte>, output: seq<byte>, was: seq<byte>, done: nat)
      requires done + 16 <= |was| && |plain| == done && |output| == 16
      ensures var ram: seq<byte> := plain + was[done..];
        ram[..done] + output + ram[done..][16..] == plain + output + was[done + 16..]
    {
      assert (plain + was[done..])[done..][16..] == was[done + 16..];
    }

    static lemma DecipherStep(dec: Cipher, was: seq<byte>, done: nat, block: Block)
      requires done + 16 <= |was| && done % 16 == 0 && block == was[done..done + 16]
      ensures Decrypted(dec, ZERO_IV, was[..done + 16])
           == Decrypted(dec, ZERO_IV, was[..done]) + XorBlock(dec(block), LastBlock(ZERO_IV, was[..done]))
      ensures LastBlock(ZERO_IV, was[..done + 16]) == block
    {
      hide Decrypted, XorBlock;
      assert was[..done] + block == was[..done + 16];
      DecryptedSnoc(dec, ZERO_IV, was[..done], block);
    }

    method Store(at: nat, block: Block)
      requires at + 16 <= ram.Length
      modifies ram
      ensures ram[..] == old(ram[..at]) + block + old(ram[at..])[16..]
    {
      forall j | 0 <= j < 16 {
        ram[at + j] := block[j];
      }
    }

    /** A small buffer on the stack filled from flash. */
    method Fetch(addr: nat, n: nat) returns (bytes: seq<byte>)
      ensures bytes == Read(chip.cells, addr, n)
    {
      var buffer := new byte[n];
      FlashReadData(chip, addr, buffer, 0, n);
      bytes := buffer[..];
    }

    method Hash(flag: seq<byte>, lengthBytes: seq<byte>, length: nat) returns (sign: Digest)
      requires |flag| == 1 && |lengthBytes| == 4 && length <= ram.Length && length + 5 + 64 < UINT32_LIMIT
      ensures sign == DriverHash(hw.engine, flag + lengthBytes + ram[..length])
    {
      var context := new Context(hw.engine, length + 5);
      context.Update(flag);
      context.Update(lengthBytes);
      context.Update(ram[..length]);
      assert context.Absorbed() == flag + lengthBytes + ram[..length];
      sign := context.Final();
    }

    /** The byte-by-byte comparison of the stored and the computed signature. */
    static method SameSign(signFirmware: Digest, sign: Digest) returns (same: bool)
      ensures same == (signFirmware == sign)
    {
      var i := 0;
      while i < SHA256_LEN
        invariant 0 <= i <= SHA256_LEN
        invariant signFirmware[..i] == sign[..i]
      {
        if signFirmware[i] != sign[i] {
          return false;
        }
        i := i + 1;
      }
      assert signFirmware == signFirmware[..i] && sign == sign[..i];
      return true;
    }

    method FlashImageCheck(addr: nat, length: nat) returns (v: Verdict)
      requires OVERHEAD <= length <= ram.Length && length + 64 < UINT32_LIMIT
      modifies ram
      ensures v == Check(hw, chip.cells, addr, length)
      ensures v.Pass? ==> Length(chip.cells, addr) <= length - OVERHEAD && RamHolds(Plain(hw, chip.cells, addr))
    {
      hide DriverHash, Decrypted, Read;
      var flag := Fetch(addr, 1);
      var lengthBytes := Fetch(addr + 1, 4);
      var codesLength := U32(lengthBytes);
      if codesLength > length - 1 - 4 - SHA256_LEN {
        return Oversize;
      }
      FlashReadData(chip, addr + 5, ram, 0, codesLength);
      assert ram[..codesLength] == Body(chip.cells, addr);
      var signFirmware := Fetch(addr + 5 + codesLength, SHA256_LEN);
      var sign := Hash(flag, lengthBytes, codesLength);
      assert flag == [Flag(chip.cells, addr)];
      var same := SameSign(signFirmware, sign);
      if !same {
        return BadSignature;
      }
      if flag[0] % 2 == 1 {
        if codesLength % 16 != 0 {
          return Runaway;
        }
        Decipher(codesLength);
      }
      return Pass;
    }

    method FlashImageCompare(addr1: nat, addr2: nat) returns (different: bool)
      ensures different == (Signature(chip.cells, addr1) != Signature(chip.cells, addr2))
    {
      var lengthBytes := Fetch(addr1 + 1, 4);
      var sign1 := Fetch(addr1 + 5 + U32(lengthBytes), SHA256_LEN);
      lengthBytes := Fetch(addr2 + 1, 4);
      var sign2 := Fetch(addr2 + 5 + U32(lengthBytes), SHA256_LEN);
      different := sign1 != sign2;
    }

    /** The second half of `flash_image_backup`: erase, write the header, write the rest. */
    method EraseAndWrite(to: nat, flag: byte, lengthBytes: seq<byte>, rest: seq<byte>, ctrlc: nat -> bool)
      returns (ghost erased: nat, ghost cmds: seq<Command>)
      requires chip.Valid() && to % SECTOR_SIZE == 0 && |lengthBytes| == 4
      modifies chip
      ensures chip.Valid() && chip.log == old(chip.log) + cmds
      ensures 1 <= erased <= Sectors(5 + |rest|)
      ensures (forall i: nat :: !ctrlc(i)) ==> erased == Sectors(5 + |rest|)
      ensures CopyCommands(flag, lengthBytes, rest, to, erased, cmds)
    {
      var rc: int;
      rc, erased := DoFlashErase(chip, to, 5 + |rest|, ctrlc);
      HeaderInPage(to);
      ghost var c1 := FlashWriteData(chip, to, [flag]);
      ghost var c2 := FlashWriteData(chip, to + 1, lengthBytes);
      ghost var c3 := DoFlashWrite(chip, to + 5, rest);
      cmds := EraseCommands(to, erased) + c1 + c2 + c3;
      CopyParts(flag, lengthBytes, rest, to, erased, c1, c2, c3);
      Regroup(old(chip.log), EraseCommands(to, erased), c1, c2, c3);
    }

    method FlashImageBackup(from: nat, to: nat, ctrlc: nat -> bool)
      returns (ghost erased: nat, ghost cmds: seq<Command>)
      requires chip.Valid() && to % SECTOR_SIZE == 0
      requires Length(chip.cells, from) + OVERHEAD <= ram.Length
      modifies chip, ram
      ensures chip.Valid() && chip.log == old(chip.log) + cmds && cmds != []
      ensures Copied(old(chip.cells), from, to, ctrlc, erased, cmds)
      ensures RamHolds(old(Body(chip.cells, from)))
    {
      ghost var m := chip.cells;
      var flag := Fetch(from, 1);
      var lengthBytes := Fetch(from + 1, 4);
      var codesLength := U32(lengthBytes);
      var tail := codesLength + SHA256_LEN;
      FlashReadData(chip, from + 1 + 4, ram, 0, tail);
      ReadPrefix(m, from + 5, tail, codesLength);
      assert ram[..tail] == Read(m, from + 5, tail);
      assert ram[..tail][..codesLength] <= ram[..];
      erased, cmds := EraseAndWrite(to, flag[0], lengthBytes, ram[..tail], ctrlc);
    }

    /** One power-up. `ctrlc` is what the console sends while sectors are being erased. */
    method PowerUp(lay: Layout, ctrlc: nat -> bool)
      returns (outcome: Outcome, ghost erased: nat, ghost cmds: seq<Command>)
      requires chip.Valid() && lay.size <= ram.Length
      modifies chip, ram
      ensures chip.Valid() && chip.log == old(chip.log) + cmds
      ensures var m := old(chip.cells);
        match PlanOf(hw, lay, m)
        case Hang => outcome == Hung && cmds == []
        case Fail => outcome == Failed && cmds == []
        case BootApp => outcome == Booted && cmds == [] && RamHolds(Code(hw, lay, m))
        case AppToBak =>
          outcome == Booted && Copied(m, lay.app, lay.bak, ctrlc, erased, cmds) && RamHolds(Code(hw, lay, m))
        case BakToApp =>
          outcome == Booted && Copied(m, lay.bak, lay.app, ctrlc, erased, cmds) && RamHolds(Code(hw, lay, m))
      ensures var m := old(chip.cells);
        var app, bak := Check(hw, m, lay.app, lay.size), Check(hw, m, lay.bak, lay.size);
        var different := Signature(m, lay.app) != Signature(m, lay.bak);
        && (outcome == Hung <==> app == Runaway || bak == Runaway)
        && (outcome == Booted <==> outcome != Hung && (app == Pass || (bak == Pass && different)))
        && (cmds != [] <==> outcome == Booted && different)
        && (cmds != [] ==> if app == Pass then Copied(m, lay.app, lay.bak, ctrlc, erased, cmds)
                           else Copied(m, lay.bak, lay.app, ctrlc, erased, cmds))
        && (outcome == Booted ==> RamHolds(if !different then Plain(hw, m, lay.app)
                                           else if app == Pass then Body(m, lay.app) else Body(m, lay.bak)))
    {
      hide Copied, RamHolds, Decrypted, DriverHash, Read;
      erased, cmds := 0, [];
      var bakCheck := FlashImageCheck(lay.bak, lay.size);
      if bakCheck == Runaway {
        return Hung, 0, [];
      }
      var appCheck := FlashImageCheck(lay.app, lay.size);
      if appCheck == Runaway {
        return Hung, 0, [];
      }
      var different := FlashImageCompare(lay.app, lay.bak);
      if different {
        if appCheck == Pass {
          erased, cmds := FlashImageBackup(lay.app, lay.bak, ctrlc);
        } else if bakCheck == Pass {
          erased, cmds := FlashImageBackup(lay.bak, lay.app, ctrlc);
        } else {
          return Failed, 0, [];
        }
      } else if appCheck != Pass {
        return Failed, 0, [];
      }
      outcome := Booted;
    }

    /** The code that `go_boot` jumps to. */
    ghost predicate RamHolds(code: seq<byte>)
      reads ram
    {
      code <= ram[..]
    }
  }

  /** A backup that erased every sector it should, unless Ctrl-C stopped it. */
  ghost predicate Copied(m: Cells, from: nat, to: nat, ctrlc: nat -> bool, erased: nat, cmds: seq<Command>) {
    && 1 <= erased <= Sectors(Length(m, from) + OVERHEAD)
    && ((forall i: nat :: !ctrlc(i)) ==> erased == Sectors(Length(m, from) + OVERHEAD))
    && BackupCommands(m, from, to, erased, cmds)
  }

  lemma HeaderInPage(to: nat)
    requires to % SECTOR_SIZE == 0
    ensures to % PAGE_SIZE == 0 && (to + 1) % PAGE_SIZE == 1
  {
    assert to == 16 * (to / SECTOR_SIZE) * PAGE_SIZE;
  }

  lemma Regroup(log: seq<Command>, c0: seq<Command>, c1: seq<Command>, c2: seq<Command>, c3: seq<Command>)
    ensures log + c0 + c1 + c2 + c3 == log + (c0 + c1 + c2 + c3)
  {
  }

  lemma CopyParts(flag: byte, lengthBytes: seq<byte>, rest: seq<byte>, to: nat, erased: nat,
                  c1: seq<Command>, c2: seq<Command>, c3: seq<Command>)
    requires |c1| == 1 && Payload(c1, to) == Some([flag])
    requires |c2| == 1 && Payload(c2, to + 1) == Some(lengthBytes)
    requires Payload(c3, to + 5) == Some(rest)
    ensures CopyCommands(flag, lengthBytes, rest, to, erased, EraseCommands(to, erased) + c1 + c2 + c3)
  {
    PayloadSingle(c1, to);
    PayloadSingle(c2, to + 1);
    var cmds := EraseCommands(to, erased) + c1 + c2 + c3;
    assert cmds[..erased] == EraseCommands(to, erased);
    assert cmds[erased + 2..] == c3;
  }
}
