/** What a whole Kermit session delivers, however often packets are repeated or garbled. */
module KermitDelivery {
  import opened Bytes
  import opened KermitProtocol

  // ------------------------------------------------------ scanning apart from data

  /** The scanner after a string of characters, and the events it saw. */
  function ScanAll(s: Scanner, input: seq<byte>): (Scanner, seq<Event>) {
    if input == [] then (s, [])
    else
      var (t, es) := ScanAll(s, input[..|input| - 1]);
      var (u, e) := Scan(t, input[|input| - 1]);
      (u, if e == Quiet then es else es + [e])
  }

  function ApplyAll(r: Store, es: seq<Event>): (r': Store)
    requires Valid(r)
    ensures Valid(r')
  {
    if es == [] then r else Apply(ApplyAll(r, es[..|es| - 1]), es[|es| - 1])
  }

  lemma ApplySnoc(r: Store, es: seq<Event>, e: Event)
    requires Valid(r)
    ensures ApplyAll(r, es + [e]) == Apply(ApplyAll(r, es), e)
  {
    assert (es + [e])[..|es|] == es;
  }

  /** The machine is its scanner followed by the effect of the events. */
  lemma {:induction false} RunIsScan(m: Machine, input: seq<byte>)
    requires Valid(m.store)
    ensures var (s, es) := ScanAll(m.scanner, input);
      Run(m, input) == Machine(s, ApplyAll(m.store, es))
    decreases |input|
  {
    if input != [] {
      RunIsScan(m, input[..|input| - 1]);
      var (t, es) := ScanAll(m.scanner, input[..|input| - 1]);
      var (u, e) := Scan(t, input[|input| - 1]);
      ApplySnoc(m.store, es, e);
    }
  }

  // ------------------------------------------------------------------- progress

  /** The bytes of the file so far, and whether a quote is pending. */
  datatype Progress = Progress(data: seq<byte>, escape: bool)

  function Current(r: Store): Progress
    requires Valid(r)
  {
    Progress(r.mem[..r.pos], r.escape)
  }

  function Checkpoint(r: Store): Progress
    requires Valid(r)
  {
    Progress(r.mem[..r.posSaved], r.escapeSaved)
  }

  /** Control-character unquoting, character by character. */
  function DecodeChar(quote: byte, p: Progress, c: byte): Progress {
    if p.escape then Progress(p.data + [KTrans(c)], false)
    else if c == quote then Progress(p.data, true)
    else Progress(p.data + [c], false)
  }

  function Decode(quote: byte, p: Progress, d: seq<byte>): Progress {
    if d == [] then p else DecodeChar(quote, Decode(quote, p, d[..|d| - 1]), d[|d| - 1])
  }

  lemma {:induction false} DecodeConcat(quote: byte, p: Progress, a: seq<byte>, b: seq<byte>)
    ensures Decode(quote, p, a + b) == Decode(quote, Decode(quote, p, a), b)
    decreases |b|
  {
    if b == [] {
      assert a + b == a;
    } else {
      assert (a + b)[..|a + b| - 1] == a + b[..|b| - 1];
      DecodeConcat(quote, p, a, b[..|b| - 1]);
    }
  }

  lemma KDataDecodes(r: Store, c: byte)
    requires Valid(r)
    ensures var r' := KData(r, c);
      && Valid(r')
      && Current(r') == DecodeChar(r.quote, Current(r), c)
      && Checkpoint(r') == Checkpoint(r)
      && r' == r.(mem := r'.mem, pos := r'.pos, escape := r'.escape)
  {
    var r' := KData(r, c);
    assert r'.mem[..r.posSaved] == r.mem[..r.posSaved];
    if r'.pos == r.pos + 1 {
      assert r'.mem[..r'.pos] == r.mem[..r.pos] + [r'.mem[r.pos]];
    }
  }

  // ---------------------------------------------------------- packets and attempts

  datatype Packet = Packet(n: nat, t: byte, d: seq<byte>)

  function DataEvents(d: seq<byte>): (es: seq<Event>)
    ensures |es| == |d|
    ensures forall i :: 0 <= i < |d| ==> es[i] == GotData(d[i])
  {
    seq(|d|, i requires 0 <= i < |d| => GotData(d[i]))
  }

  /** The events of a packet that arrives intact. */
  function PacketEvents(p: Packet): seq<Event> {
    [GotSeq(p.n), GotType(p.t)] + DataEvents(p.d) + [Accept(p.t)]
  }

  /** These characters bring the packet in, after any noise before its start. */
  predicate Intact(p: Packet, input: seq<byte>) {
    ScanAll(IDLE, input) == (if p.t == BREAK_TYPE then IDLE.(at := Done) else IDLE, PacketEvents(p))
  }

  predicate Inner(e: Event) {
    e.GotType? || e.GotData?
  }

  /** These characters bring in a length and the sequence number `n` and are rejected later on. */
  predicate Rejected(n: nat, input: seq<byte>) {
    var (s, es) := ScanAll(IDLE, input);
    && s == IDLE && 2 <= |es|
    && es[0] == GotSeq(n) && es[|es| - 1] == Reject
    && forall i :: 1 <= i < |es| - 1 ==> Inner(es[i])
  }

  /** These characters start a packet that is rejected on its length or sequence number. */
  predicate Unread(input: seq<byte>) {
    ScanAll(IDLE, input) == (IDLE, [Reject])
  }

  /** These characters start no packet. */
  predicate Unheard(input: seq<byte>) {
    ScanAll(IDLE, input) == (IDLE, [])
  }

  /** The store at the start of a packet: a repeated packet starts from the checkpoint. */
  function Base(r: Store, n: nat): Progress
    requires Valid(r)
  {
    if n == r.lastN then Checkpoint(r) else Current(r)
  }

  /** Type and data never touch the checkpoint, the quote or the last sequence number. */
  lemma {:induction false} InnerKeeps(r: Store, es: seq<Event>)
    requires Valid(r) && forall i :: 0 <= i < |es| ==> Inner(es[i])
    ensures var r' := ApplyAll(r, es);
      Checkpoint(r') == Checkpoint(r) && r'.quote == r.quote && r'.lastN == r.lastN
    decreases |es|
  {
    if es != [] {
      var init, e := es[..|es| - 1], es[|es| - 1];
      InnerKeeps(r, init);
      var s := ApplyAll(r, init);
      if e.GotData? && s.kind == DATA_TYPE {
        KDataDecodes(s, e.c);
      }
    }
  }

  lemma {:induction false} DataDecodes(r: Store, d: seq<byte>)
    requires Valid(r) && r.kind == DATA_TYPE
    ensures var r' := ApplyAll(r, DataEvents(d));
      && Current(r') == Decode(r.quote, Current(r), d) && Checkpoint(r') == Checkpoint(r)
      && r'.quote == r.quote && r'.lastN == r.lastN && r'.parms == r.parms && r'.kind == r.kind
    decreases |d|
  {
    if d != [] {
      var init := d[..|d| - 1];
      DataDecodes(r, init);
      assert DataEvents(d)[..|d| - 1] == DataEvents(init);
      KDataDecodes(ApplyAll(r, DataEvents(init)), d[|d| - 1]);
    }
  }

  /** Where the quote comes from once a send-initiate packet has been accepted. */
  function QuoteOf(d: seq<byte>): byte {
    if |d| >= 6 then d[5] else K_ESCAPE
  }

  /** What is kept of a send-initiate packet's data. */
  function Gathered(d: seq<byte>): seq<byte> {
    if |d| < SEND_DATA_SIZE then d else d[..SEND_DATA_SIZE - 1]
  }

  lemma GatheredStep(d: seq<byte>)
    requires d != []
    ensures var init := Gathered(d[..|d| - 1]);
      Gathered(d) == if |init| < SEND_DATA_SIZE - 1 then init + [d[|d| - 1]] else init
  {
    if |d| < SEND_DATA_SIZE {
      assert d == d[..|d| - 1] + [d[|d| - 1]];
    }
  }

  lemma ParmStep(r: Store, c: byte)
    requires Valid(r) && r.kind == SEND_TYPE
    ensures Apply(r, GotData(c)) == if |r.parms| < SEND_DATA_SIZE - 1 then r.(parms := r.parms + [c]) else r
  {
  }

  lemma {:induction false} ParmsCollect(r: Store, d: seq<byte>)
    requires Valid(r) && r.kind == SEND_TYPE && r.parms == []
    ensures ApplyAll(r, DataEvents(d)) == r.(parms := Gathered(d))
    decreases |d|
  {
    if d != [] {
      hide Apply, ApplyAll, Gathered;
      ParmsCollect(r, d[..|d| - 1]);
      GatheredStep(d);
      assert DataEvents(d) == DataEvents(d[..|d| - 1]) + [GotData(d[|d| - 1])];
      ApplySnoc(r, DataEvents(d[..|d| - 1]), GotData(d[|d| - 1]));
      ParmStep(r.(parms := Gathered(d[..|d| - 1])), d[|d| - 1]);
    }
  }

  lemma {:induction false} OtherData(r: Store, d: seq<byte>)
    requires Valid(r) && r.kind != SEND_TYPE && r.kind != DATA_TYPE
    ensures ApplyAll(r, DataEvents(d)) == r
    decreases |d|
  {
    if d != [] {
      OtherData(r, d[..|d| - 1]);
      assert DataEvents(d)[..|d| - 1] == DataEvents(d[..|d| - 1]);
    }
  }

  /** What a packet adds to the progress and the quote. */
  function AfterPacket(quote: byte, p: Progress, packet: Packet): Progress {
    if packet.t == DATA_TYPE then Decode(quote, p, packet.d) else p
  }

  function QuoteAfter(quote: byte, packet: Packet): byte {
    if packet.t == SEND_TYPE then QuoteOf(packet.d) else quote
  }

  /** The first two events set the checkpoint and the type. */
  lemma Opening(r: Store, n: nat, t: byte)
    requires Valid(r)
    ensures var s := ApplyAll(r, [GotSeq(n), GotType(t)]);
      && s == Apply(Apply(r, GotSeq(n)), GotType(t))
      && Current(s) == Checkpoint(s) == Base(r, n)
      && s.lastN == n && s.kind == t && s.quote == r.quote && s.parms == r.parms
  {
    ApplySnoc(r, [], GotSeq(n));
    ApplySnoc(r, [GotSeq(n)], GotType(t));
    assert [] + [GotSeq(n)] == [GotSeq(n)] && [GotSeq(n)] + [GotType(t)] == [GotSeq(n), GotType(t)];
  }

  lemma {:induction false} ApplyConcat(r: Store, a: seq<Event>, b: seq<Event>)
    requires Valid(r)
    ensures ApplyAll(r, a + b) == ApplyAll(ApplyAll(r, a), b)
    decreases |b|
  {
    if b == [] {
      assert a + b == a;
    } else {
      assert (a + b)[..|a + b| - 1] == a + b[..|b| - 1];
      ApplyConcat(r, a, b[..|b| - 1]);
    }
  }

  lemma AcceptKeeps(s: Store, t: byte)
    requires Valid(s)
    ensures var r' := Apply(s, Accept(t));
      && Current(r') == Current(s) && Checkpoint(r') == Checkpoint(s) && r'.lastN == s.lastN && r'.parms == []
      && r'.quote == (if t == SEND_TYPE then Negotiated(s).quote else s.quote)
  {
  }

  lemma Closing(s: Store, p: Packet)
    requires Valid(s) && s.kind == p.t && s.parms == []
    requires Current(s) == Checkpoint(s)
    ensures var r' := ApplyAll(s, DataEvents(p.d) + [Accept(p.t)]);
      && Current(r') == AfterPacket(s.quote, Current(s), p) && Checkpoint(r') == Checkpoint(s)
      && r'.quote == QuoteAfter(s.quote, p) && r'.lastN == s.lastN && r'.parms == []
  {
    ApplySnoc(s, DataEvents(p.d), Accept(p.t));
    AcceptKeeps(ApplyAll(s, DataEvents(p.d)), p.t);
    if p.t == DATA_TYPE {
      DataDecodes(s, p.d);
    } else if p.t == SEND_TYPE {
      ParmsCollect(s, p.d);
    } else {
      OtherData(s, p.d);
    }
  }

  /** An intact packet: its data goes in after the base, which becomes the checkpoint. */
  lemma IntactEffect(r: Store, p: Packet)
    requires Valid(r) && r.parms == []
    ensures var r' := ApplyAll(r, PacketEvents(p));
      && Current(r') == AfterPacket(r.quote, Base(r, p.n), p) && Checkpoint(r') == Base(r, p.n)
      && r'.quote == QuoteAfter(r.quote, p) && r'.lastN == p.n && r'.parms == []
  {
    var head := [GotSeq(p.n), GotType(p.t)];
    assert PacketEvents(p) == head + (DataEvents(p.d) + [Accept(p.t)]);
    ApplyConcat(r, head, DataEvents(p.d) + [Accept(p.t)]);
    Opening(r, p.n, p.t);
    Closing(ApplyAll(r, head), p);
  }

  /** A rejected packet: whatever it brought in is rolled back to the base. */
  lemma RejectedEffect(r: Store, n: nat, input: seq<byte>)
    requires Valid(r) && Rejected(n, input)
    ensures var r' := ApplyAll(r, ScanAll(IDLE, input).1);
      && Current(r') == Checkpoint(r') == Base(r, n)
      && r'.quote == r.quote && r'.lastN == n && r'.parms == []
  {
    var es := ScanAll(IDLE, input).1;
    var inner := es[1..|es| - 1];
    assert es == ([GotSeq(n)] + inner) + [Reject];
    ApplySnoc(r, [GotSeq(n)] + inner, Reject);
    ApplyConcat(r, [GotSeq(n)], inner);
    ApplySnoc(r, [], GotSeq(n));
    assert [] + [GotSeq(n)] == [GotSeq(n)];
    InnerKeeps(Apply(r, GotSeq(n)), inner);
  }

  /** A packet rejected before its sequence number is known: back to the checkpoint as it is. */
  lemma UnreadEffect(r: Store)
    requires Valid(r)
    ensures var r' := ApplyAll(r, [Reject]);
      && Current(r') == Checkpoint(r') == Checkpoint(r)
      && r'.quote == r.quote && r'.lastN == r.lastN && r'.parms == []
  {
    ApplySnoc(r, [], Reject);
    assert [] + [Reject] == [Reject];
  }

  // ------------------------------------------------------------------- attempts

  /** What becomes of one attempt to send a packet: it arrives, is rejected after some sequence number, is rejected
      before that, or is not taken for a packet at all. */
  datatype Fate = Arrives | Refused(n: nat) | Cut | Lost

  datatype Attempt = Attempt(input: seq<byte>, fate: Fate)

  predicate Meets(p: Packet, a: Attempt) {
    match a.fate
    case Arrives => Intact(p, a.input)
    case Refused(n) => Rejected(n, a.input)
    case Cut => Unread(a.input)
    case Lost => Unheard(a.input)
  }

  /** The receiver waiting for a packet. */
  predicate Waiting(m: Machine) {
    m.scanner == IDLE && Valid(m.store) && m.store.parms == []
  }

  /** What matters between packets. */
  datatype Link = Link(progress: Progress, checkpoint: Progress, quote: byte, lastN: int)

  function LinkOf(m: Machine): Link
    requires Valid(m.store)
  {
    Link(Current(m.store), Checkpoint(m.store), m.store.quote, m.store.lastN)
  }

  /** Where a packet with sequence number `n` starts from. */
  function BaseOf(link: Link, n: nat): Progress {
    if n == link.lastN then link.checkpoint else link.progress
  }

  function AfterAttempt(link: Link, p: Packet, fate: Fate): Link {
    match fate
    case Arrives =>
      var base := BaseOf(link, p.n);
      Link(AfterPacket(link.quote, base, p), base, QuoteAfter(link.quote, p), p.n)
    case Refused(n) => Link(BaseOf(link, n), BaseOf(link, n), link.quote, n)
    case Cut => link.(progress := link.checkpoint)
    case Lost => link
  }

  /** Every attempt of every packet has exactly this effect, whatever the receiver holds. */
  lemma OneAttempt(m: Machine, p: Packet, a: Attempt)
    requires Waiting(m) && Meets(p, a) && (a.fate.Arrives? ==> p.t != BREAK_TYPE)
    ensures var m' := Run(m, a.input);
      Waiting(m') && LinkOf(m') == AfterAttempt(LinkOf(m), p, a.fate)
  {
    hide PacketEvents, AfterPacket, QuoteAfter, Current, Checkpoint;
    RunIsScan(m, a.input);
    match a.fate
    case Arrives => IntactEffect(m.store, p);
    case Refused(n) => RejectedEffect(m.store, n, a.input);
    case Cut => UnreadEffect(m.store);
    case Lost =>
  }

  /** The break packet that arrives stops the receiver and leaves the data of its base. */
  lemma BreakArrives(m: Machine, p: Packet, input: seq<byte>)
    requires Waiting(m) && p.t == BREAK_TYPE && Intact(p, input)
    ensures var m' := Run(m, input);
      m'.scanner.at == Done && Current(m'.store) == BaseOf(LinkOf(m), p.n)
  {
    RunIsScan(m, input);
    IntactEffect(m.store, p);
  }

  function Inputs(attempts: seq<Attempt>): seq<byte> {
    if attempts == [] then [] else Inputs(attempts[..|attempts| - 1]) + attempts[|attempts| - 1].input
  }

  function AfterAttempts(link: Link, p: Packet, attempts: seq<Attempt>): Link {
    if attempts == [] then link
    else AfterAttempt(AfterAttempts(link, p, attempts[..|attempts| - 1]), p, attempts[|attempts| - 1].fate)
  }

  /** Any attempts one after another, whatever they are. */
  lemma {:induction false} AttemptsEffect(m: Machine, p: Packet, attempts: seq<Attempt>)
    requires Waiting(m)
    requires forall i :: 0 <= i < |attempts| ==>
      Meets(p, attempts[i]) && (attempts[i].fate.Arrives? ==> p.t != BREAK_TYPE)
    ensures var m' := Run(m, Inputs(attempts));
      Waiting(m') && LinkOf(m') == AfterAttempts(LinkOf(m), p, attempts)
    decreases |attempts|
  {
    hide Meets, LinkOf, AfterAttempt, Step;
    if attempts != [] {
      var init, last := attempts[..|attempts| - 1], attempts[|attempts| - 1];
      AttemptsEffect(m, p, init);
      RunConcat(m, Inputs(init), last.input);
      OneAttempt(Run(m, Inputs(init)), p, last);
    }
  }

  /** A packet and every attempt to send it. */
  datatype Transmission = Transmission(packet: Packet, attempts: seq<Attempt>)

  /** The attempts of a packet other than a break packet are what they are said to be. */
  predicate Sent(tx: Transmission) {
    tx.packet.t != BREAK_TYPE && forall i :: 0 <= i < |tx.attempts| ==> Meets(tx.packet, tx.attempts[i])
  }

  function SessionInput(txs: seq<Transmission>): seq<byte> {
    if txs == [] then [] else SessionInput(txs[..|txs| - 1]) + Inputs(txs[|txs| - 1].attempts)
  }

  function AfterAll(link: Link, txs: seq<Transmission>): Link {
    if txs == [] then link
    else AfterAttempts(AfterAll(link, txs[..|txs| - 1]), txs[|txs| - 1].packet, txs[|txs| - 1].attempts)
  }

  /** The exact effect of a whole session, delivered or not. */
  lemma {:induction false} SessionExact(m: Machine, txs: seq<Transmission>)
    requires Waiting(m) && forall i :: 0 <= i < |txs| ==> Sent(txs[i])
    ensures var m' := Run(m, SessionInput(txs));
      Waiting(m') && LinkOf(m') == AfterAll(LinkOf(m), txs)
    decreases |txs|
  {
    hide Meets, LinkOf, Step, AfterAttempts;
    if txs != [] {
      var init, last := txs[..|txs| - 1], txs[|txs| - 1];
      SessionExact(m, init);
      RunConcat(m, SessionInput(init), Inputs(last.attempts));
      AttemptsEffect(Run(m, SessionInput(init)), last.packet, last.attempts);
    }
  }
}
