/** The Kermit receiver of load.c as a machine over characters: a scanner that recognises packets, and the
    data it checkpoints, rolls back and acknowledges. */
module KermitProtocol {
  import opened Bytes

  const START_CHAR: byte := 0x01
  const ETX_CHAR: byte := 0x03
  const END_CHAR: byte := 0x0D
  const SPACE := 0x20
  const K_ESCAPE: byte := 0x23
  const SEND_TYPE: byte := 'S' as int
  const DATA_TYPE: byte := 'D' as int
  const ACK_TYPE: byte := 'Y' as int
  const NACK_TYPE: byte := 'N' as int
  const BREAK_TYPE: byte := 'B' as int
  const SEND_DATA_SIZE := 20

  function ToChar(x: nat): byte {
    (x + SPACE) % 0x100
  }

  function UnChar(c: byte): (x: nat)
    ensures x < 0x100 && (SPACE <= c ==> x == c - SPACE)
  {
    if c >= SPACE then c - SPACE else c - SPACE + 0x100
  }

  /** `(c & 0xE0) == 0`: a character no packet may contain. */
  predicate Control(c: byte) {
    c < 0x20
  }

  /** `ktrans`: bits 5 and 6 decide, bit 6 is cleared or set. */
  function KTrans(c: byte): byte {
    if c / 0x20 % 4 == 2 then c - 0x40
    else if c % 0x80 == 0x3f then c + 0x40
    else c
  }

  /** The type 1 block check of a character sum. */
  function Check1(sum: nat): (x: nat)
    ensures x < 64
  {
    (sum + sum / 64 % 4) % 64
  }

  // ------------------------------------------------------------------ scanner

  datatype Expecting = Start | Len | Seq | Type | LenHi | LenLo | HeaderCheck | Data | BlockCheck | End | Done | Aborted

  datatype Scanner = Scanner(at: Expecting, sum: nat, length: int, lenHi: nat, kind: byte)

  /** What a character means for the data: at most one event per character. */
  datatype Event = Quiet | GotSeq(n: nat) | GotType(t: byte) | GotData(c: byte) | Reject | Accept(t: byte) | Abort

  const IDLE := Scanner(Start, 0, 0, 0, 0)

  /** Data while more than the check is to come. */
  function Rest(s: Scanner): Scanner {
    s.(at := if s.length > 1 then Data else BlockCheck)
  }

  /** Between packets, and at the end of one. */
  function ScanOutside(s: Scanner, c: byte): (Scanner, Event) {
    if s.at == Start then
      if c == START_CHAR then (IDLE.(at := Len), Quiet)
      else if c == ETX_CHAR then (IDLE.(at := Aborted), Abort)
      else (s, Quiet)
    else if s.at == End then
      if c != END_CHAR then (IDLE, Reject)
      else (IDLE.(at := if s.kind == BREAK_TYPE then Done else Start), Accept(s.kind))
    else (s, Quiet)
  }

  /** Length, sequence number, type and the long header. */
  function ScanHeader(s: Scanner, c: byte): (Scanner, Event) {
    var t := s.(sum := s.sum + c);
    if s.at == Len then (t.(at := Seq, length := UnChar(c)), Quiet)
    else if s.at == Seq then (t.(at := Type, length := s.length - 1), GotSeq(UnChar(c)))
    else if s.at == Type then
      var u := t.(length := s.length - 1, kind := c);
      (if u.length == -2 then u.(at := LenHi) else Rest(u), GotType(c))
    else if s.at == LenHi then (t.(at := LenLo, lenHi := UnChar(c)), Quiet)
    else if s.at == LenLo then (t.(at := HeaderCheck, length := s.lenHi * 95 + UnChar(c)), Quiet)
    else if c != ToChar(Check1(s.sum)) then (IDLE, Reject)
    else (Rest(t), Quiet)
  }

  function Scan(s: Scanner, c: byte): (Scanner, Event) {
    if s.at in {Start, End, Done, Aborted} then ScanOutside(s, c)
    else if Control(c) then (IDLE, Reject)
    else if s.at == Data then (Rest(s.(sum := s.sum + c, length := s.length - 1)), GotData(c))
    else if s.at == BlockCheck then
      if c != ToChar(Check1(s.sum)) then (IDLE, Reject) else (s.(at := End), Quiet)
    else ScanHeader(s, c)
  }

  // ------------------------------------------------------------- received data

  /** The file-scope variables of load.c. `mem` is the RAM from the load address on, as far as it was written. */
  datatype Store = Store(
    n: nat, lastN: int, escape: bool, escapeSaved: bool, pos: nat, posSaved: nat, mem: seq<byte>,
    kind: byte, kindSaved: byte, parms: seq<byte>, quote: byte, padCount: nat, padChar: byte, eol: byte, out: seq<byte>)

  const EMPTY := Store(0, -1, false, false, 0, 0, [], 0, 0, [], K_ESCAPE, 0, 0, END_CHAR, [])

  predicate Valid(r: Store) {
    r.posSaved <= r.pos <= |r.mem| && |r.parms| < SEND_DATA_SIZE
  }

  function Saved(r: Store): Store {
    r.(escapeSaved := r.escape, posSaved := r.pos, kindSaved := r.kind)
  }

  function Restored(r: Store): Store {
    r.(escape := r.escapeSaved, pos := r.posSaved, kind := r.kindSaved)
  }

  /** `*os_data_addr++ = c` */
  function Put(r: Store, c: byte): Store
    requires r.pos <= |r.mem|
  {
    r.(mem := if r.pos < |r.mem| then r.mem[r.pos := c] else r.mem + [c], pos := r.pos + 1)
  }

  function KData(r: Store, c: byte): Store
    requires r.pos <= |r.mem|
  {
    if r.escape then Put(r, KTrans(c)).(escape := false)
    else if c == r.quote then r.(escape := true)
    else Put(r, c)
  }

  // ------------------------------------------------------------------- replies

  function Sum(s: seq<byte>): nat {
    if s == [] then 0 else Sum(s[..|s| - 1]) + s[|s| - 1]
  }

  /** Everything a packet's check covers: length, sequence number, type and data. */
  function Covered(n: nat, t: byte, d: seq<byte>): seq<byte> {
    [ToChar(|d| + 3), ToChar(n), t] + d
  }

  /** A short packet up to its check. */
  function Framed(n: nat, t: byte, d: seq<byte>): seq<byte> {
    [START_CHAR] + Covered(n, t, d) + [ToChar(Check1(Sum(Covered(n, t, d))))]
  }

  /** A reply as sent: padding, packet, and the end of line unless that is NUL. */
  function Reply(r: Store, t: byte, d: seq<byte>): seq<byte> {
    Fill(r.padCount, r.padChar) + Framed(r.n, t, d) + if r.eol == 0 then [] else [r.eol]
  }

  /** The parameters offered in the acknowledgement of a send-initiate packet. */
  const OFFER: seq<byte> := [126, 33, 32, 0x40, 45, '#' as int, 'N' as int, '1' as int, 'N' as int, 34, 32, 126, 126]

  /** How many of the sender's parameters are looked at: the last one is ignored if it filled the buffer. */
  function Looked(parms: seq<byte>): (k: nat)
    ensures k <= |parms|
  {
    if |parms| == SEND_DATA_SIZE - 1 then |parms| - 1 else |parms|
  }

  function Offered(parms: seq<byte>): seq<byte> {
    if Looked(parms) <= 9 then OFFER[..Looked(parms)] else OFFER
  }

  function Negotiated(r: Store): Store {
    var k := Looked(r.parms);
    r.(padCount := if k >= 3 then UnChar(r.parms[2]) else 0,
       padChar := if k >= 4 then KTrans(r.parms[3]) else 0,
       eol := if k >= 5 then UnChar(r.parms[4]) else END_CHAR,
       quote := if k >= 6 then r.parms[5] else K_ESCAPE)
  }

  /** What an event does to the data. */
  function Apply(r: Store, e: Event): (r': Store)
    requires Valid(r)
    ensures Valid(r')
  {
    match e
    case Quiet => r
    case Abort => r
    case GotSeq(n) =>
      var s := r.(n := n);
      if n == r.lastN then Restored(s) else Saved(s).(lastN := n)
    case GotType(t) => r.(kind := t)
    case GotData(c) =>
      if r.kind == DATA_TYPE then KData(r, c)
      else if r.kind == SEND_TYPE && |r.parms| < SEND_DATA_SIZE - 1 then r.(parms := r.parms + [c])
      else r
    case Reject =>
      var s := Restored(r);
      s.(out := s.out + Reply(s, NACK_TYPE, []), parms := [])
    case Accept(t) =>
      if t == SEND_TYPE then
        var s := Negotiated(r);
        s.(out := s.out + Reply(s, ACK_TYPE, Offered(r.parms)), parms := [])
      else r.(out := r.out + Reply(r, ACK_TYPE, []), parms := [])
  }

  datatype Machine = Machine(scanner: Scanner, store: Store)

  const INITIAL := Machine(IDLE, EMPTY)

  function Step(m: Machine, c: byte): (m': Machine)
    requires Valid(m.store)
    ensures Valid(m'.store)
  {
    var (s, e) := Scan(m.scanner, c);
    Machine(s, Apply(m.store, e))
  }

  /** The machine after a string of characters. */
  function Run(m: Machine, input: seq<byte>): (m': Machine)
    requires Valid(m.store)
    ensures Valid(m'.store)
  {
    if input == [] then m else Step(Run(m, input[..|input| - 1]), input[|input| - 1])
  }

  lemma {:induction false} RunConcat(m: Machine, a: seq<byte>, b: seq<byte>)
    requires Valid(m.store)
    ensures Run(m, a + b) == Run(Run(m, a), b)
    decreases |b|
  {
    if b == [] {
      assert a + b == a;
    } else {
      assert (a + b)[..|a + b| - 1] == a + b[..|b| - 1];
      RunConcat(m, a, b[..|b| - 1]);
    }
  }
}
