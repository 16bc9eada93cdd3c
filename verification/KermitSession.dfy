/** Which sessions deliver, and which attempts lose data. */
module KermitSession {
  import opened Bytes
  import opened KermitProtocol
  import opened KermitDelivery
  import opened KermitLedger

  // ------------------------------------------------------------------- one packet

  /** The root and any number of copies of one piece. */
  predicate Copies(x: seq<Piece>, piece: Piece) {
    |x| > 0 && x[0] == Root(true) && forall k :: 1 <= k < |x| ==> x[k] == piece
  }

  lemma {:induction false} CopiesGrow(start: Link, x: seq<Piece>, y: seq<Piece>, piece: Piece)
    requires Copies(x, piece) && Copies(y, piece) && |x| < |y| && piece.Piece? && piece.d != []
    ensures Size(Reading(start, x)) < Size(Reading(start, y))
    decreases |y|
  {
    var init := y[..|y| - 1];
    if |x| == |init| {
      assert x == init;
    } else {
      CopiesGrow(start, x, init, piece);
    }
    DecodeGrows(piece.quote, Reading(start, init), piece.d);
  }

  lemma {:induction false} CopiesKept(l: Ledger, p: Packet, attempts: seq<Attempt>)
    requires Carries(p) && Copies(l.held, Piece(0, l.quote, p.d)) && Copies(l.marked, Piece(0, l.quote, p.d))
    ensures var after := EnteredAll(l, 0, p, attempts);
      && after.quote == l.quote
      && Copies(after.held, Piece(0, l.quote, p.d)) && Copies(after.marked, Piece(0, l.quote, p.d))
    decreases |attempts|
  {
    if attempts != [] {
      CopiesKept(l, p, attempts[..|attempts| - 1]);
    }
  }

  /** A packet that carries data, sent when data and checkpoint agree: whatever becomes of its attempts, its data is in
      the file once if and only if the account says so. */
  lemma DeliveredExactly(start: Link, p: Packet, attempts: seq<Attempt>)
    requires start.progress == start.checkpoint && Carries(p)
    ensures AfterAttempts(start, p, attempts).progress == AfterPacket(start.quote, start.progress, p) <==>
      BookedAll(AccountOf(start), p, attempts).held.With?
  {
    hide AfterAttempts, AfterPacket, EnteredAll, BookedAll, Reading;
    var l, a, root := Opened(start), AccountOf(start), [Root(true)];
    var goal := root + PieceOf(0, start.quote, p);
    var after := EnteredAll(l, 0, p, attempts);
    StartTells(start);
    ClassOpen(root, root, 0, start.quote, p);
    AllTells(a, l, root, 0, p, attempts);
    OpenedReads(start);
    AllReads(start, l, 0, p, attempts);
    CopiesKept(l, p, attempts);
    ReadingMore(start, root, 0, start.quote, p);
    RootReads(start);
    if |after.held| < |goal| {
      CopiesGrow(start, after.held, goal, Piece(0, start.quote, p.d));
    } else if |goal| < |after.held| {
      CopiesGrow(start, goal, after.held, Piece(0, start.quote, p.d));
    } else {
      assert after.held == goal;
    }
  }

  lemma RootReads(start: Link)
    ensures Reading(start, [Root(true)]) == start.progress
  {
  }

  /** An attempt that arrives, or is rejected although its sequence number was right. */
  predicate Ordinary(p: Packet, a: Attempt) {
    a.fate.Arrives? || a.fate == Refused(p.n)
  }

  lemma QuoteTwice(quote: byte, p: Packet)
    ensures QuoteAfter(QuoteAfter(quote, p), p) == QuoteAfter(quote, p)
  {
  }

  lemma {:induction false} OrdinaryBooked(a: Account, p: Packet, attempts: seq<Attempt>)
    requires a.held.Without? && a.quote == a.want && p.n != a.lastN && attempts != []
    requires forall i :: 0 <= i < |attempts| ==> Ordinary(p, attempts[i])
    ensures var b := BookedAll(a, p, attempts); var arrives := attempts[|attempts| - 1].fate.Arrives?;
      && b.marked.Without? && b.lastN == p.n && b.want == a.want
      && (b.quote == a.quote || b.quote == QuoteAfter(a.quote, p)) && (arrives ==> b.quote == QuoteAfter(a.quote, p))
      && b.held == if arrives && Carries(p) then With else Without
    decreases |attempts|
  {
    var init := attempts[..|attempts| - 1];
    QuoteTwice(a.quote, p);
    if init == [] {
      assert BookedAll(a, p, init) == a;
    } else {
      OrdinaryBooked(a, p, init);
    }
  }

  /** A new packet repeated in the ordinary way counts exactly if the last attempt arrives or it adds nothing anyway. */
  lemma RepeatedExactly(start: Link, p: Packet, attempts: seq<Attempt>)
    requires p.n != start.lastN && p.t == DATA_TYPE && attempts != []
    requires forall i :: 0 <= i < |attempts| ==> Ordinary(p, attempts[i])
    ensures AfterAttempts(start, p, attempts).progress == AfterPacket(start.quote, start.progress, p) <==>
      attempts[|attempts| - 1].fate.Arrives? || !Carries(p)
  {
    hide AfterAttempts, AfterPacket, EnteredAll, BookedAll, Reading;
    var l, a, root := Opened(start), AccountOf(start), [Root(true)];
    OrdinaryBooked(a, p, attempts);
    StartTells(start);
    ClassOpen(l.held, root, 0, start.quote, p);
    ClassOpen(l.marked, root, 0, start.quote, p);
    AllTells(a, l, root, 0, p, attempts);
    OpenedReads(start);
    AllReads(start, l, 0, p, attempts);
    ReadingMore(start, root, 0, start.quote, p);
    RootReads(start);
    CarriesExactly(start.quote, start.progress, p);
  }

  // ------------------------------------------------------------------- sessions

  predicate Delivered(a: Account) {
    a.held.Without? && a.quote == a.want
  }

  lemma {:induction false} SessionDelivers(link: Link, txs: seq<Transmission>)
    requires Balance(AccountOf(link), txs).held.Without?
    ensures var after := AfterAll(link, txs); var d := After(Delivery(link.progress, link.quote), txs);
      after.progress == d.progress && (after.quote == d.quote <==> Delivered(Balance(AccountOf(link), txs)))
  {
    hide AfterAll, After, Kept, WantedAll, Balance, Reading;
    LedgerExactly(link, txs);
    WantedReads(link, txs);
  }

  /** The delivery theorem: after a session that the account calls delivered each packet counts once and in order. */
  lemma {:induction false} SessionEffect(m: Machine, txs: seq<Transmission>)
    requires Waiting(m) && Delivered(Balance(AccountOf(LinkOf(m)), txs))
    requires forall i :: 0 <= i < |txs| ==> Sent(txs[i])
    ensures var m' := Run(m, SessionInput(txs));
      && Waiting(m')
      && Delivery(Current(m'.store), m'.store.quote) == After(Delivery(Current(m.store), m.store.quote), txs)
  {
    hide Run, Balance, After, AfterAll, Sent;
    SessionExact(m, txs);
    SessionDelivers(LinkOf(m), txs);
  }

  /** After every other session the receiver holds the decoding of another list of packets than the one sent. */
  lemma {:induction false} SessionFails(m: Machine, txs: seq<Transmission>)
    requires Waiting(m) && !Balance(AccountOf(LinkOf(m)), txs).held.Without?
    requires forall i :: 0 <= i < |txs| ==> Sent(txs[i])
    ensures var m' := Run(m, SessionInput(txs)); var l := Kept(Opened(LinkOf(m)), txs);
      && Waiting(m') && LinkOf(m') == LinkFrom(LinkOf(m), l)
      && l.held != WantedAll(m.store.quote, txs).pieces
  {
    hide Run, Balance, AfterAll, Sent, Kept, LinkFrom, WantedAll;
    SessionExact(m, txs);
    LedgerExactly(LinkOf(m), txs);
  }

  lemma {:induction false} SpoiltStays(a: Account, p: Packet, attempts: seq<Attempt>)
    requires a.held.Spoilt? && a.marked.Spoilt?
    ensures var b := BookedAll(a, p, attempts); b.held.Spoilt? && b.marked.Spoilt?
    decreases |attempts|
  {
    if attempts != [] {
      SpoiltStays(a, p, attempts[..|attempts| - 1]);
    }
  }

  lemma {:induction false} SpoiltForGood(a: Account, more: seq<Transmission>)
    requires a.held.Spoilt? && a.marked.Spoilt?
    ensures var b := Balance(a, more); b.held.Spoilt? && b.marked.Spoilt?
    decreases |more|
  {
    hide BookedAll;
    if more != [] {
      var k := |more| - 1;
      SpoiltForGood(a, more[..k]);
      SpoiltStays(Balance(a, more[..k]), more[k].packet, more[k].attempts);
    }
  }

  /** A packet that adds nothing, rejected on its length. */
  const NUDGE := Transmission(Packet(0, NACK_TYPE, []), [Attempt([START_CHAR, 0], Cut)])

  lemma Nudged(a: Account)
    ensures Sent(NUDGE) && Balance(a, [NUDGE]).held == a.marked
  {
    ScanBadLength(0);
    var attempts := NUDGE.attempts;
    assert attempts[..0] == [] && [NUDGE][..0] == [];
    assert BookedAll(a, NUDGE.packet, attempts[..0]) == a;
    assert Balance(a, [NUDGE][..0]) == a;
  }

  /** When data is lost for good: between packets no continuation of the session delivers if and only if data and
      checkpoint are both spoilt. */
  lemma LostForGood(a: Account)
    requires !a.held.With? && !a.marked.With?
    ensures (forall more :: (forall i :: 0 <= i < |more| ==> Sent(more[i])) ==> !Balance(a, more).held.Without?) <==>
      a.held.Spoilt? && a.marked.Spoilt?
  {
    hide Sent;
    if a.held.Spoilt? && a.marked.Spoilt? {
      forall more: seq<Transmission> ensures !Balance(a, more).held.Without? {
        SpoiltForGood(a, more);
      }
    } else if a.held.Spoilt? {
      Nudged(a);
      assert forall i :: 0 <= i < |[NUDGE]| ==> Sent([NUDGE][i]);
    } else {
      var none: seq<Transmission> := [];
      assert Balance(a, none) == a;
    }
  }

  /** Consecutive packets carry different sequence numbers. */
  predicate Numbered(txs: seq<Transmission>, lastN: int) {
    && (txs != [] ==> txs[0].packet.n != lastN)
    && (forall i :: 0 < i < |txs| ==> txs[i].packet.n != txs[i - 1].packet.n)
  }

  /** Repeated in the ordinary way until at last it arrives. */
  predicate Patient(tx: Transmission) {
    && tx.attempts != [] && tx.attempts[|tx.attempts| - 1].fate.Arrives?
    && forall i :: 0 <= i < |tx.attempts| ==> Ordinary(tx.packet, tx.attempts[i])
  }

  /** A sender that numbers its packets and repeats each in the ordinary way until it arrives loses nothing. */
  lemma {:induction false} PatientSender(a: Account, txs: seq<Transmission>)
    requires Delivered(a) && Numbered(txs, a.lastN) && forall i :: 0 <= i < |txs| ==> Patient(txs[i])
    ensures Delivered(Balance(a, txs))
    ensures Balance(a, txs).lastN == if txs == [] then a.lastN else txs[|txs| - 1].packet.n
    decreases |txs|
  {
    hide BookedAll;
    if txs != [] {
      var k := |txs| - 1;
      PatientSender(a, txs[..k]);
      OrdinaryBooked(Balance(a, txs[..k]), txs[k].packet, txs[k].attempts);
    }
  }

  /** The end of a session: the break packet arrives at last. If the account calls the data delivered, the receiver
      stops with every packet once and in order. */
  lemma {:induction false} BreakEffect(m: Machine, txs: seq<Transmission>, p: Packet, attempts: seq<Attempt>,
                                           arrived: seq<byte>)
    requires Waiting(m) && forall i :: 0 <= i < |txs| ==> Sent(txs[i])
    requires p.t == BREAK_TYPE && Intact(p, arrived)
    requires forall i :: 0 <= i < |attempts| ==> Meets(p, attempts[i]) && !attempts[i].fate.Arrives?
    requires Balance(AccountOf(LinkOf(m)), txs + [Transmission(p, attempts + [Attempt(arrived, Arrives)])])
               .held.Without?
    ensures var m' := Run(m, SessionInput(txs) + (Inputs(attempts) + arrived));
      && m'.scanner.at == Done
      && Current(m'.store) == After(Delivery(Current(m.store), m.store.quote), txs).progress
  {
    hide Run, Meets, Balance, LinkOf, Intact, SessionInput, AfterAll, Sent;
    var tries := attempts + [Attempt(arrived, Arrives)];
    var all := txs + [Transmission(p, tries)];
    assert tries[..|tries| - 1] == attempts && all[..|all| - 1] == txs;
    var m1 := Run(m, SessionInput(txs));
    var m2 := Run(m1, Inputs(attempts));
    SessionExact(m, txs);
    AttemptsEffect(m1, p, attempts);
    BreakArrives(m2, p, arrived);
    RunConcat(m, SessionInput(txs), Inputs(attempts) + arrived);
    RunConcat(m1, Inputs(attempts), arrived);
    SessionDelivers(LinkOf(m), all);
    BreakLast(LinkOf(m), txs, p, attempts, arrived);
    LinkParts(m);
  }

  lemma BreakLast(link: Link, txs: seq<Transmission>, p: Packet, attempts: seq<Attempt>, arrived: seq<byte>)
    requires p.t == BREAK_TYPE
    ensures var all := txs + [Transmission(p, attempts + [Attempt(arrived, Arrives)])];
      && AfterAll(link, all).progress == BaseOf(AfterAttempts(AfterAll(link, txs), p, attempts), p.n)
      && forall d: Delivery :: After(d, all).progress == After(d, txs).progress
  {
    hide AfterAttempt;
    var tries := attempts + [Attempt(arrived, Arrives)];
    var all := txs + [Transmission(p, tries)];
    assert tries[..|tries| - 1] == attempts && all[..|all| - 1] == txs;
    ArrivedBase(AfterAttempts(AfterAll(link, txs), p, attempts), p);
  }

  lemma ArrivedBase(link: Link, p: Packet)
    requires p.t == BREAK_TYPE
    ensures AfterAttempt(link, p, Arrives).progress == BaseOf(link, p.n)
  {
  }

  lemma LinkParts(m: Machine)
    requires Valid(m.store)
    ensures LinkOf(m).progress == Current(m.store) && LinkOf(m).quote == m.store.quote
  {
  }

  // ------------------------------------------------------------ how data is lost

  lemma TwoAttempts(m: Machine, p: Packet, a: Attempt, q: Packet, b: Attempt)
    requires Waiting(m) && Meets(p, a) && Meets(q, b) && p.t != BREAK_TYPE && q.t != BREAK_TYPE
    ensures var m' := Run(m, a.input + b.input);
      Waiting(m') && LinkOf(m') == AfterAttempt(AfterAttempt(LinkOf(m), p, a.fate), q, b.fate)
  {
    hide Meets, AfterAttempt, LinkOf;
    RunConcat(m, a.input, b.input);
    OneAttempt(m, p, a);
    OneAttempt(Run(m, a.input), q, b);
  }

  lemma ThreeAttempts(m: Machine, p: Packet, a: Attempt, b: Attempt, q: Packet, c: Attempt)
    requires Waiting(m) && Meets(p, a) && Meets(p, b) && Meets(q, c) && p.t != BREAK_TYPE && q.t != BREAK_TYPE
    ensures var m' := Run(m, a.input + b.input + c.input);
      Waiting(m') && LinkOf(m') == AfterAttempt(AfterAttempt(AfterAttempt(LinkOf(m), p, a.fate), p, b.fate), q, c.fate)
  {
    hide Meets, AfterAttempt, LinkOf;
    RunConcat(m, a.input + b.input, c.input);
    TwoAttempts(m, p, a, p, b);
    OneAttempt(Run(m, a.input + b.input), q, c);
  }

  /** A packet arrives and is acknowledged; a repetition sent meanwhile arrives damaged; the sender, which holds the
      first acknowledgement, goes on. The packet is lost, although every length and sequence number was right. */
  lemma RepetitionLosesData(m: Machine, p: Packet, a: seq<byte>, g: seq<byte>, q: Packet, b: seq<byte>)
    requires Waiting(m) && p.t == DATA_TYPE && q.t == DATA_TYPE && p.n != m.store.lastN && q.n != p.n
    requires Intact(p, a) && Rejected(p.n, g) && Intact(q, b)
    ensures Current(Run(m, a + g + b).store) == Decode(m.store.quote, Current(m.store), q.d)
  {
    hide Intact, Rejected, Run;
    ThreeAttempts(m, p, Attempt(a, Arrives), Attempt(g, Refused(p.n)), q, Attempt(b, Arrives));
  }

  /** A rejection on length or sequence number after a new packet has arrived takes that packet back: its data counts
      exactly if it adds nothing. */
  lemma EarlyReject(m: Machine, p: Packet, a: seq<byte>, e: seq<byte>)
    requires Waiting(m) && p.t != BREAK_TYPE && p.n != m.store.lastN && Intact(p, a) && Unread(e)
    ensures var m' := Run(m, a + e);
      && Current(m'.store) == Current(m.store)
      && (Current(m'.store) == AfterPacket(m.store.quote, Current(m.store), p) <==> !Carries(p))
  {
    hide Intact, Unread, Run;
    TwoAttempts(m, p, Attempt(a, Arrives), p, Attempt(e, Cut));
    CarriesExactly(m.store.quote, Current(m.store), p);
  }

  /** It does no harm once an attempt of the same packet has passed its sequence number and another one still
      arrives. */
  lemma EarlyRejectHarmless(m: Machine, p: Packet, e: seq<byte>, b: seq<byte>)
    requires Waiting(m) && p.t != BREAK_TYPE && p.n == m.store.lastN && Unread(e) && Intact(p, b)
    ensures Current(Run(m, e + b).store) == AfterPacket(m.store.quote, Checkpoint(m.store), p)
  {
    hide Intact, Unread, Run;
    TwoAttempts(m, p, Attempt(e, Cut), p, Attempt(b, Arrives));
  }

  /** So an accepted data packet is lost when the next packet's length arrives as a control character and the sender,
      which holds the acknowledgement, goes on. */
  lemma LengthErrorLosesData(m: Machine, p: Packet, a: seq<byte>, c: byte, q: Packet, b: seq<byte>)
    requires Waiting(m) && p.t == DATA_TYPE && q.t == DATA_TYPE
    requires p.n != m.store.lastN && q.n != p.n
    requires Intact(p, a) && Intact(q, b) && Control(c)
    ensures Current(Run(m, a + [START_CHAR, c] + b).store) == Decode(m.store.quote, Current(m.store), q.d)
  {
    hide Intact, Unread, Run;
    ScanBadLength(c);
    ThreeAttempts(m, p, Attempt(a, Arrives), Attempt([START_CHAR, c], Cut), q, Attempt(b, Arrives));
  }

  lemma ScanBadLength(c: byte)
    requires Control(c)
    ensures Unread([START_CHAR, c])
  {
    assert [START_CHAR, c][..1] == [START_CHAR] && [START_CHAR][..0] == [];
    assert ScanAll(IDLE, []) == (IDLE, []);
    assert ScanAll(IDLE, [START_CHAR]) == (IDLE.(at := Len), []);
    assert [] + [Reject] == [Reject];
  }

  /** A packet arrives; a repetition arrives with another sequence number and is rejected; the next repetition arrives
      and is taken for a new packet: its data is in the file twice. */
  lemma WrongSequenceDoubles(m: Machine, p: Packet, a: seq<byte>, n: nat, g: seq<byte>, b: seq<byte>)
    requires Waiting(m) && p.t == DATA_TYPE && p.n != m.store.lastN && n != p.n
    requires Intact(p, a) && Rejected(n, g) && Intact(p, b)
    ensures Current(Run(m, a + g + b).store) == Decode(m.store.quote, Decode(m.store.quote, Current(m.store), p.d), p.d)
  {
    hide Intact, Rejected, Run;
    ThreeAttempts(m, p, Attempt(a, Arrives), Attempt(g, Refused(n)), p, Attempt(b, Arrives));
  }
}
