/** The NOR chip behind SPI3, the driver loops of flash.c and the erase and write loops of command.c. */
module NorFlash {
  import opened Bytes
  import opened Options

  const CHIP_SIZE := 0x100_0000
  const SECTOR_SIZE := 4096
  const PAGE_SIZE := 256
  const CHUNK := 32
  const FLASH_WRITE_SIZE := 128

  type Cells = s: seq<byte> | |s| == CHIP_SIZE ghost witness Fill(CHIP_SIZE, ERASED)

  /** A chip command that changes cells; it either completes or does not happen. */
  datatype Command = SectorErase(addr: nat) | PageProgram(addr: nat, data: seq<byte>)

  // ---------------------------------------------------------------- the chip

  /** The chip sees 24 address bits. */
  function Cell(m: Cells, addr: nat): byte {
    m[addr % CHIP_SIZE]
  }

  function Read(m: Cells, addr: nat, n: nat): (r: seq<byte>)
    ensures |r| == n
    ensures forall j :: 0 <= j < n ==> r[j] == Cell(m, addr + j)
  {
    seq<byte>(n, j requires 0 <= j < n => Cell(m, addr + j))
  }

  lemma ReadPrefix(m: Cells, addr: nat, n: nat, k: nat)
    requires k <= n
    ensures Read(m, addr, n)[..k] == Read(m, addr, k)
  {
  }

  /** A sector erase ignores the low address bits and sets a whole sector. */
  function EraseSector(m: Cells, addr: nat): (r: Cells) {
    seq(CHIP_SIZE, i requires 0 <= i < CHIP_SIZE =>
      if i / SECTOR_SIZE == addr % CHIP_SIZE / SECTOR_SIZE then ERASED else m[i])
  }

  /** A page program clears bits and wraps inside the page of its first address. */
  function ProgramPage(m: Cells, addr: nat, data: seq<byte>): (r: Cells) {
    seq(CHIP_SIZE, i requires 0 <= i < CHIP_SIZE =>
      var j := (i - addr) % PAGE_SIZE;
      if i / PAGE_SIZE == addr % CHIP_SIZE / PAGE_SIZE && j < |data| then And(m[i], data[j]) else m[i])
  }

  function Apply(m: Cells, c: Command): Cells {
    match c
    case SectorErase(a) => EraseSector(m, a)
    case PageProgram(a, d) => ProgramPage(m, a, d)
  }

  /** The chip after a list of commands. */
  function Run(m: Cells, cmds: seq<Command>): Cells {
    if cmds == [] then m else Apply(Run(m, cmds[..|cmds| - 1]), cmds[|cmds| - 1])
  }

  lemma {:induction false} RunConcat(m: Cells, a: seq<Command>, b: seq<Command>)
    ensures Run(m, a + b) == Run(Run(m, a), b)
    decreases |b|
  {
    if b == [] {
      assert a + b == a;
    } else {
      var b' := b[..|b| - 1];
      assert (a + b)[..|a + b| - 1] == a + b';
      RunConcat(m, a, b');
    }
  }

  lemma RunSnoc(m: Cells, cmds: seq<Command>, c: Command)
    ensures Run(m, cmds + [c]) == Apply(Run(m, cmds), c)
  {
    assert (cmds + [c])[..|cmds|] == cmds;
  }

  class Chip {
    var cells: Cells
    /** The cells at power-up, and every command since then. */
    ghost const base: Cells
    ghost var log: seq<Command>

    ghost predicate Valid()
      reads this
    {
      cells == Run(base, log)
    }

    constructor (m: Cells)
      ensures Valid() && base == m && log == []
    {
      cells, base, log := m, m, [];
    }

    method SectorErase(addr: nat)
      requires Valid()
      modifies this
      ensures Valid() && log == old(log) + [Command.SectorErase(addr)]
    {
      cells := EraseSector(cells, addr);
      RunSnoc(base, log, Command.SectorErase(addr));
      log := log + [Command.SectorErase(addr)];
    }

    method PageProgram(addr: nat, data: seq<byte>)
      requires Valid()
      modifies this
      ensures Valid() && log == old(log) + [Command.PageProgram(addr, data)]
    {
      cells := ProgramPage(cells, addr, data);
      RunSnoc(base, log, Command.PageProgram(addr, data));
      log := log + [Command.PageProgram(addr, data)];
    }
  }

  // ------------------------------------------------- what the loops must issue

  /** One page program of 1 to 32 bytes that does not leave its page. */
  predicate Piece(c: Command) {
    && c.PageProgram?
    && 0 < |c.data| <= CHUNK
    && c.addr % PAGE_SIZE + |c.data| <= PAGE_SIZE
  }

  /** The bytes that `cmds` writes from left to right, starting at `addr` and leaving no gap; None if it does not. */
  function Payload(cmds: seq<Command>, addr: nat): Option<seq<byte>> {
    if cmds == [] then Some([])
    else
      match Payload(cmds[..|cmds| - 1], addr)
      case None => None
      case Some(d) =>
        var c := cmds[|cmds| - 1];
        if Piece(c) && c.addr == addr + |d| then Some(d + c.data) else None
  }

  function EraseCommands(addr: nat, count: nat): (r: seq<Command>)
    ensures |r| == count
  {
    if count == 0 then [] else EraseCommands(addr, count - 1) + [SectorErase(addr + SECTOR_SIZE * (count - 1))]
  }

  lemma {:induction false} EraseCommandsPrefix(addr: nat, count: nat, k: nat)
    requires k <= count
    ensures EraseCommands(addr, count)[..k] == EraseCommands(addr, k)
    decreases count
  {
    if k < count {
      EraseCommandsPrefix(addr, count - 1, k);
    }
  }

  /** Sectors that cover `length` bytes from a sector boundary. */
  function Sectors(length: nat): (n: nat)
    ensures (n - 1) * SECTOR_SIZE < length <= n * SECTOR_SIZE || n == length == 0
  {
    length / SECTOR_SIZE + if length % SECTOR_SIZE == 0 then 0 else 1
  }

  // ------------------------------------------------------------ what they do

  /** The cells after a range has been erased. */
  function Wiped(m: Cells, addr: nat, len: nat): (r: Cells) {
    seq(CHIP_SIZE, i requires 0 <= i < CHIP_SIZE => if addr <= i < addr + len then ERASED else m[i])
  }

  /** The cells after `data` has been programmed over a range. */
  function Overlaid(m: Cells, addr: nat, data: seq<byte>): (r: Cells) {
    seq(CHIP_SIZE, i requires 0 <= i < CHIP_SIZE =>
      if addr <= i < addr + |data| then And(m[i], data[i - addr]) else m[i])
  }

  lemma EraseStep(m: Cells, addr: nat, len: nat)
    requires addr % SECTOR_SIZE == 0 && len % SECTOR_SIZE == 0
    requires addr + len + SECTOR_SIZE <= CHIP_SIZE
    ensures EraseSector(Wiped(m, addr, len), addr + len) == Wiped(m, addr, len + SECTOR_SIZE)
  {
    assert (addr + len) % CHIP_SIZE == addr + len;
  }

  lemma {:induction false} EraseEffect(m: Cells, addr: nat, count: nat)
    requires addr % SECTOR_SIZE == 0
    requires addr + SECTOR_SIZE * count <= CHIP_SIZE
    ensures Run(m, EraseCommands(addr, count)) == Wiped(m, addr, SECTOR_SIZE * count)
  {
    if count == 0 {
      assert Wiped(m, addr, 0) == m;
    } else {
      var k := count - 1;
      EraseEffect(m, addr, k);
      RunSnoc(m, EraseCommands(addr, k), SectorErase(addr + SECTOR_SIZE * k));
      EraseStep(m, addr, SECTOR_SIZE * k);
      assert SECTOR_SIZE * k + SECTOR_SIZE == SECTOR_SIZE * count;
    }
  }

  lemma WrapsNever(i: nat, addr: nat, len: nat)
    requires 0 < len && addr % PAGE_SIZE + len <= PAGE_SIZE
    ensures i / PAGE_SIZE == addr / PAGE_SIZE && (i - addr) % PAGE_SIZE < len <==> addr <= i < addr + len
    ensures addr <= i < addr + len ==> (i - addr) % PAGE_SIZE == i - addr
  {
    if i / PAGE_SIZE == addr / PAGE_SIZE {
      var d := i - addr;
      assert d % PAGE_SIZE == if 0 <= d then d else d + PAGE_SIZE;
    }
  }

  lemma PieceStep(m: Cells, addr: nat, data: seq<byte>, c: Command)
    requires Piece(c) && c.addr == addr + |data| && c.addr + |c.data| <= CHIP_SIZE
    ensures Apply(Overlaid(m, addr, data), c) == Overlaid(m, addr, data + c.data)
  {
    assert c.addr % CHIP_SIZE == c.addr;
    forall i | 0 <= i < CHIP_SIZE
      ensures Apply(Overlaid(m, addr, data), c)[i] == Overlaid(m, addr, data + c.data)[i]
    {
      WrapsNever(i, c.addr, |c.data|);
    }
  }

  lemma {:induction false} WriteEffect(m: Cells, cmds: seq<Command>, addr: nat)
    requires Payload(cmds, addr).Some?
    requires addr + |Payload(cmds, addr).value| <= CHIP_SIZE
    ensures Run(m, cmds) == Overlaid(m, addr, Payload(cmds, addr).value)
    decreases |cmds|
  {
    if cmds == [] {
      assert Overlaid(m, addr, []) == m;
    } else {
      var init := cmds[..|cmds| - 1];
      WriteEffect(m, init, addr);
      PieceStep(m, addr, Payload(init, addr).value, cmds[|cmds| - 1]);
    }
  }

  lemma PayloadSnoc(cmds: seq<Command>, addr: nat, c: Command)
    requires Payload(cmds, addr).Some? && Piece(c) && c.addr == addr + |Payload(cmds, addr).value|
    ensures Payload(cmds + [c], addr) == Some(Payload(cmds, addr).value + c.data)
  {
    assert (cmds + [c])[..|cmds|] == cmds;
  }

  lemma PayloadSingle(cmds: seq<Command>, addr: nat)
    requires Payload(cmds, addr).Some? && |cmds| == 1
    ensures cmds == [PageProgram(addr, Payload(cmds, addr).value)]
  {
    assert Payload(cmds[..0], addr) == Some([]);
    assert [] + cmds[0].data == cmds[0].data;
  }

  /** A piece between the boundaries of one page. */
  lemma PieceInPage(addr: nat, data: seq<byte>, page: nat)
    requires 0 < |data| <= CHUNK
    requires PAGE_SIZE * page <= addr && addr + |data| <= PAGE_SIZE * (page + 1)
    ensures Piece(PageProgram(addr, data))
  {
  }

  lemma {:induction false} PayloadConcat(a: seq<Command>, b: seq<Command>, addr: nat)
    requires Payload(a, addr).Some?
    requires Payload(b, addr + |Payload(a, addr).value|).Some?
    ensures Payload(a + b, addr)
         == Some(Payload(a, addr).value + Payload(b, addr + |Payload(a, addr).value|).value)
    decreases |b|
  {
    var x := Payload(a, addr).value;
    if b == [] {
      assert a + b == a && x + [] == x;
    } else {
      var b' := b[..|b| - 1];
      var c := b[|b| - 1];
      PayloadConcat(a, b', addr);
      assert a + b == (a + b') + [c];
      PayloadSnoc(a + b', addr, c);
      var y := Payload(b', addr + |x|).value;
      assert (x + y) + c.data == x + (y + c.data);
    }
  }

  lemma Moved(data: seq<byte>, written: seq<byte>, rest: seq<byte>, n: nat)
    requires data == written + rest && n <= |rest|
    ensures data == (written + rest[..n]) + rest[n..]
  {
  }

  /** Cutting a write short leaves a shorter write of the same bytes. */
  lemma {:induction false} PayloadPrefix(cmds: seq<Command>, addr: nat, k: nat)
    requires Payload(cmds, addr).Some?
    requires k <= |cmds|
    ensures Payload(cmds[..k], addr).Some?
    ensures Payload(cmds[..k], addr).value <= Payload(cmds, addr).value
    decreases |cmds|
  {
    if k == |cmds| {
      assert cmds[..k] == cmds;
    } else {
      PayloadPrefix(cmds[..|cmds| - 1], addr, k);
      assert cmds[..|cmds| - 1][..k] == cmds[..k];
    }
  }

  /** Any bytes can be written within these rules. */
  lemma {:induction false} PayloadExists(addr: nat, data: seq<byte>) returns (cmds: seq<Command>)
    ensures Payload(cmds, addr) == Some(data)
    decreases |data|
  {
    if data == [] {
      cmds := [];
    } else {
      var k := |data| - 1;
      var init := PayloadExists(addr, data[..k]);
      PayloadSnoc(init, addr, PageProgram(addr + k, data[k..]));
      assert data[..k] + data[k..] == data;
      cmds := init + [PageProgram(addr + k, data[k..])];
    }
  }

  // ------------------------------------------------------- the driver's loops

  method FlashReadData(chip: Chip, addr: nat, buf: array<byte>, start: nat, length: nat)
    requires start + length <= buf.Length
    modifies buf
    ensures buf[..] == old(buf[..start]) + Read(chip.cells, addr, length) + old(buf[start + length..])
  {
    var done := 0;
    while done < length
      invariant done <= length
      invariant buf[..] == old(buf[..start]) + Read(chip.cells, addr, done) + old(buf[start + done..])
    {
      var writeLen := if length - done > CHUNK then CHUNK else length - done;
      ghost var before := buf[..];
      forall j | 0 <= j < writeLen {
        buf[start + done + j] := Cell(chip.cells, addr + done + j);
      }
      done := done + writeLen;
      assert forall i :: 0 <= i < buf.Length ==>
        buf[i] == (old(buf[..start]) + Read(chip.cells, addr, done) + old(buf[start + done..]))[i];
    }
  }

  /** The inner loop of `flash_write_data`: the part of a write that lies in one page. */
  method WriteInPage(chip: Chip, addr: nat, data: seq<byte>, ghost page: nat) returns (ghost cmds: seq<Command>)
    requires chip.Valid()
    requires PAGE_SIZE * page <= addr && addr + |data| <= PAGE_SIZE * (page + 1)
    modifies chip
    ensures chip.Valid() && chip.log == old(chip.log) + cmds
    ensures Payload(cmds, addr) == Some(data)
    ensures data != [] ==> CHUNK * (|cmds| - 1) < |data| <= CHUNK * |cmds|
  {
    cmds := [];
    var at, rest := addr, data;
    ghost var written: seq<byte> := [];
    while rest != []
      invariant chip.Valid() && chip.log == old(chip.log) + cmds
      invariant data == written + rest && at == addr + |written|
      invariant Payload(cmds, addr) == Some(written)
      invariant |written| <= CHUNK * |cmds|
      invariant rest != [] ==> |written| == CHUNK * |cmds|
      invariant rest == [] && data != [] ==> CHUNK * (|cmds| - 1) < |written|
      decreases |rest|
    {
      var len := if |rest| > CHUNK then CHUNK else |rest|;
      chip.PageProgram(at, rest[..len]);
      PieceInPage(at, rest[..len], page);
      PayloadSnoc(cmds, addr, PageProgram(at, rest[..len]));
      Moved(data, written, rest, len);
      cmds := cmds + [PageProgram(at, rest[..len])];
      written := written + rest[..len];
      at, rest := at + len, rest[len..];
    }
    assert written == data;
  }

  method FlashWriteData(chip: Chip, addr: nat, data: seq<byte>) returns (ghost cmds: seq<Command>)
    requires chip.Valid()
    modifies chip
    ensures chip.Valid() && chip.log == old(chip.log) + cmds
    ensures Payload(cmds, addr) == Some(data)
    ensures 0 < |data| && addr % PAGE_SIZE + |data| <= PAGE_SIZE ==> CHUNK * (|cmds| - 1) < |data| <= CHUNK * |cmds|
  {
    hide Run, Apply, Piece, Chip.Valid;
    cmds := [];
    ghost var inPage := addr % PAGE_SIZE + |data| <= PAGE_SIZE;
    var at, rest := addr, data;
    ghost var written: seq<byte> := [];
    while rest != []
      invariant chip.Valid() && chip.log == old(chip.log) + cmds
      invariant data == written + rest && at == addr + |written|
      invariant Payload(cmds, addr) == Some(written)
      invariant rest == data ==> cmds == []
      invariant rest != data && inPage ==> rest == [] && CHUNK * (|cmds| - 1) < |data| <= CHUNK * |cmds|
      decreases |rest|
    {
      var pageRemain := PAGE_SIZE - at % PAGE_SIZE;
      var writeLen := if |rest| < pageRemain then |rest| else pageRemain;
      ghost var more := WriteInPage(chip, at, rest[..writeLen], at / PAGE_SIZE);
      PayloadConcat(cmds, more, addr);
      Moved(data, written, rest, writeLen);
      cmds := cmds + more;
      written := written + rest[..writeLen];
      at, rest := at + writeLen, rest[writeLen..];
    }
    assert written == data;
  }

  lemma Assoc(log: seq<Command>, cmds: seq<Command>, c: Command)
    ensures log + cmds + [c] == log + (cmds + [c])
  {
  }

  /** The loop of `do_flash_erase`; `ctrlc(i)` says whether Ctrl-C is seen after sector `i`. */
  method EraseSectors(chip: Chip, offset: nat, sectors: nat, ctrlc: nat -> bool)
    returns (rc: int, ghost erased: nat)
    requires chip.Valid() && sectors > 0
    modifies chip
    ensures 1 <= erased <= sectors && (forall i :: 0 <= i < erased - 1 ==> !ctrlc(i))
    ensures if ctrlc(erased - 1) then rc == -1 else rc == 0 && erased == sectors
    ensures chip.Valid() && chip.log == old(chip.log) + EraseCommands(offset, erased)
  {
    hide Run, Apply;
    var i: nat := 0;
    erased := 0;
    while i < sectors
      invariant erased == i <= sectors
      invariant forall j :: 0 <= j < i ==> !ctrlc(j)
      invariant chip.Valid() && chip.log == old(chip.log) + EraseCommands(offset, i)
    {
      chip.SectorErase(SECTOR_SIZE * i + offset);
      Assoc(old(chip.log), EraseCommands(offset, i), SectorErase(SECTOR_SIZE * i + offset));
      erased := i + 1;
      if ctrlc(i) {
        rc := -1;
        return;
      }
      i := i + 1;
    }
    rc := 0;
  }

  method DoFlashErase(chip: Chip, offset: nat, length: nat, ctrlc: nat -> bool)
    returns (rc: int, ghost erased: nat)
    requires chip.Valid()
    modifies chip
    ensures offset % SECTOR_SIZE != 0 || length == 0 ==> rc == -1 && erased == 0
    ensures offset % SECTOR_SIZE == 0 && length > 0 ==>
      && 1 <= erased <= Sectors(length)
      && (forall i :: 0 <= i < erased - 1 ==> !ctrlc(i))
      && if ctrlc(erased - 1) then rc == -1 else rc == 0 && erased == Sectors(length)
    ensures chip.Valid() && chip.log == old(chip.log) + EraseCommands(offset, erased)
  {
    if offset % SECTOR_SIZE != 0 || length == 0 {
      return -1, 0;
    }
    var sectors := length / SECTOR_SIZE + if length % SECTOR_SIZE == 0 then 0 else 1;
    assert sectors == Sectors(length) > 0;
    rc, erased := EraseSectors(chip, offset, sectors, ctrlc);
  }

  method DoFlashWrite(chip: Chip, offset: nat, data: seq<byte>) returns (ghost cmds: seq<Command>)
    requires chip.Valid()
    modifies chip
    ensures chip.Valid() && chip.log == old(chip.log) + cmds
    ensures Payload(cmds, offset) == Some(data)
  {
    cmds := [];
    var at, rest := offset, data;
    ghost var written: seq<byte> := [];
    while rest != []
      invariant chip.Valid() && chip.log == old(chip.log) + cmds
      invariant data == written + rest && at == offset + |written|
      invariant Payload(cmds, offset) == Some(written)
      decreases |rest|
    {
      var lenWrite := if |rest| > FLASH_WRITE_SIZE then FLASH_WRITE_SIZE else |rest|;
      ghost var more := FlashWriteData(chip, at, rest[..lenWrite]);
      PayloadConcat(cmds, more, offset);
      Moved(data, written, rest, lenWrite);
      cmds := cmds + more;
      written := written + rest[..lenWrite];
      at, rest := at + lenWrite, rest[lenWrite..];
    }
    assert written == data;
  }
}
