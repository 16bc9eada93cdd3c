/** A ledger of packets: what the receiver holds is always the decoding of a list of packets, and that list depends on
    the fates of the attempts alone. */
module KermitLedger {
  import opened Bytes
  import opened KermitProtocol
  import opened KermitDelivery

  /** A packet that adds to the file. */
  predicate Carries(p: Packet) {
    p.t == DATA_TYPE && p.d != []
  }

  function Size(p: Progress): nat {
    2 * |p.data| + if p.escape then 1 else 0
  }

  lemma {:induction false} DecodeGrows(quote: byte, p: Progress, d: seq<byte>)
    ensures Size(Decode(quote, p, d)) >= Size(p) + |d|
    decreases |d|
  {
    if d != [] {
      DecodeGrows(quote, p, d[..|d| - 1]);
    }
  }

  lemma CarriesExactly(quote: byte, x: Progress, p: Packet)
    ensures AfterPacket(quote, x, p) == x <==> !Carries(p)
  {
    if p.t == DATA_TYPE {
      DecodeGrows(quote, x, p.d);
    }
  }

  // ------------------------------------------------------------------- the ledger

  /** What the receiver held at the start, as its data or as its checkpoint, or the data of packet `i`, taken in under
      some quote. */
  datatype Piece = Root(current: bool) | Piece(i: nat, quote: byte, d: seq<byte>)

  /** Data and checkpoint as lists of pieces. */
  datatype Ledger = Ledger(held: seq<Piece>, marked: seq<Piece>, quote: byte, lastN: int)

  /** What packet `i` should add. */
  function PieceOf(i: nat, quote: byte, p: Packet): seq<Piece> {
    if Carries(p) then [Piece(i, quote, p.d)] else []
  }

  function BaseList(l: Ledger, n: nat): seq<Piece> {
    if n == l.lastN then l.marked else l.held
  }

  function Entered(l: Ledger, i: nat, p: Packet, fate: Fate): Ledger {
    match fate
    case Arrives =>
      var base := BaseList(l, p.n);
      Ledger(base + PieceOf(i, l.quote, p), base, QuoteAfter(l.quote, p), p.n)
    case Refused(n) => Ledger(BaseList(l, n), BaseList(l, n), l.quote, n)
    case Cut => l.(held := l.marked)
    case Lost => l
  }

  function EnteredAll(l: Ledger, i: nat, p: Packet, attempts: seq<Attempt>): Ledger {
    if attempts == [] then l
    else Entered(EnteredAll(l, i, p, attempts[..|attempts| - 1]), i, p, attempts[|attempts| - 1].fate)
  }

  function Kept(l: Ledger, txs: seq<Transmission>): Ledger {
    if txs == [] then l
    else
      var k := |txs| - 1;
      EnteredAll(Kept(l, txs[..k]), k, txs[k].packet, txs[k].attempts)
  }

  /** The progress that a list of pieces stands for. */
  function Reading(start: Link, x: seq<Piece>): Progress {
    if x == [] then start.progress
    else
      match x[|x| - 1]
      case Root(current) => if current then start.progress else start.checkpoint
      case Piece(_, quote, d) => Decode(quote, Reading(start, x[..|x| - 1]), d)
  }

  function LinkFrom(start: Link, l: Ledger): Link {
    Link(Reading(start, l.held), Reading(start, l.marked), l.quote, l.lastN)
  }

  lemma ReadingMore(start: Link, x: seq<Piece>, i: nat, quote: byte, p: Packet)
    ensures Reading(start, x + PieceOf(i, quote, p)) == AfterPacket(quote, Reading(start, x), p)
  {
    CarriesExactly(quote, Reading(start, x), p);
    var more := PieceOf(i, quote, p);
    if Carries(p) {
      assert (x + more)[..|x + more| - 1] == x;
    } else {
      assert x + more == x;
    }
  }

  lemma EnteredReads(start: Link, l: Ledger, i: nat, p: Packet, fate: Fate)
    ensures AfterAttempt(LinkFrom(start, l), p, fate) == LinkFrom(start, Entered(l, i, p, fate))
  {
    hide Reading, PieceOf, AfterPacket;
    ReadingMore(start, BaseList(l, p.n), i, l.quote, p);
  }

  lemma {:induction false} AllReads(start: Link, l: Ledger, i: nat, p: Packet, attempts: seq<Attempt>)
    ensures AfterAttempts(LinkFrom(start, l), p, attempts) == LinkFrom(start, EnteredAll(l, i, p, attempts))
    decreases |attempts|
  {
    hide LinkFrom, AfterAttempt, Entered;
    if attempts != [] {
      var init, last := attempts[..|attempts| - 1], attempts[|attempts| - 1];
      AllReads(start, l, i, p, init);
      EnteredReads(start, EnteredAll(l, i, p, init), i, p, last.fate);
    }
  }

  /** What the receiver holds after any session is the decoding of the ledger's list. */
  lemma {:induction false} SessionReads(start: Link, l: Ledger, txs: seq<Transmission>)
    ensures AfterAll(LinkFrom(start, l), txs) == LinkFrom(start, Kept(l, txs))
    decreases |txs|
  {
    hide LinkFrom, AfterAttempts, EnteredAll;
    if txs != [] {
      var k := |txs| - 1;
      SessionReads(start, l, txs[..k]);
      AllReads(start, Kept(l, txs[..k]), k, txs[k].packet, txs[k].attempts);
    }
  }

  /** The ledger of a receiver, at the start of a session. */
  function Opened(start: Link): Ledger {
    Ledger([Root(true)], [Root(start.progress == start.checkpoint)], start.quote, start.lastN)
  }

  lemma OpenedReads(start: Link)
    ensures LinkFrom(start, Opened(start)) == start
  {
  }

  // -------------------------------------------------------------- what is wanted

  /** Each packet taken once and in order. */
  datatype Wanted = Wanted(pieces: seq<Piece>, quote: byte)

  function WantedAll(quote: byte, txs: seq<Transmission>): Wanted {
    if txs == [] then Wanted([Root(true)], quote)
    else
      var k := |txs| - 1;
      var before := WantedAll(quote, txs[..k]);
      Wanted(before.pieces + PieceOf(k, before.quote, txs[k].packet), QuoteAfter(before.quote, txs[k].packet))
  }

  datatype Delivery = Delivery(progress: Progress, quote: byte)

  function After(d: Delivery, txs: seq<Transmission>): Delivery {
    if txs == [] then d
    else
      var before, last := After(d, txs[..|txs| - 1]), txs[|txs| - 1].packet;
      Delivery(AfterPacket(before.quote, before.progress, last), QuoteAfter(before.quote, last))
  }

  lemma {:induction false} WantedReads(start: Link, txs: seq<Transmission>)
    ensures var w := WantedAll(start.quote, txs);
      Delivery(Reading(start, w.pieces), w.quote) == After(Delivery(start.progress, start.quote), txs)
    decreases |txs|
  {
    if txs == [] {
      assert Reading(start, [Root(true)]) == start.progress;
    } else {
      hide Reading, PieceOf, AfterPacket;
      var k := |txs| - 1;
      WantedReads(start, txs[..k]);
      var before := WantedAll(start.quote, txs[..k]);
      ReadingMore(start, before.pieces, k, before.quote, txs[k].packet);
    }
  }

  // ------------------------------------------------------------------- the account

  /** A list of pieces against the wanted one: everything before the current packet once and in order; that and the
      current packet's data; or anything else. */
  datatype Copy = Without | With | Spoilt

  /** Data and checkpoint, the quote as it is and as it should be, and the sequence number seen last. */
  datatype Account = Account(held: Copy, marked: Copy, quote: byte, want: byte, lastN: int)

  function Added(c: Copy, p: Packet, right: bool): Copy {
    if !Carries(p) then c else if c.Without? && right then With else Spoilt
  }

  function BaseCopy(a: Account, n: nat): Copy {
    if n == a.lastN then a.marked else a.held
  }

  function Booked(a: Account, p: Packet, fate: Fate): Account {
    match fate
    case Arrives =>
      var base := BaseCopy(a, p.n);
      Account(Added(base, p, a.quote == a.want), base, QuoteAfter(a.quote, p), a.want, p.n)
    case Refused(n) => Account(BaseCopy(a, n), BaseCopy(a, n), a.quote, a.want, n)
    case Cut => a.(held := a.marked)
    case Lost => a
  }

  function BookedAll(a: Account, p: Packet, attempts: seq<Attempt>): Account {
    if attempts == [] then a
    else Booked(BookedAll(a, p, attempts[..|attempts| - 1]), p, attempts[|attempts| - 1].fate)
  }

  function Passed(c: Copy, p: Packet): Copy {
    if !Carries(p) then c else if c.With? then Without else Spoilt
  }

  /** The sender goes on to the next packet. */
  function Closed(a: Account, p: Packet): Account {
    Account(Passed(a.held, p), Passed(a.marked, p), a.quote, QuoteAfter(a.want, p), a.lastN)
  }

  function Balance(a: Account, txs: seq<Transmission>): Account {
    if txs == [] then a
    else
      var k := |txs| - 1;
      Closed(BookedAll(Balance(a, txs[..k]), txs[k].packet, txs[k].attempts), txs[k].packet)
  }

  /** The account of a receiver, at the start of a session. */
  function AccountOf(link: Link): Account {
    Account(Without, if link.progress == link.checkpoint then Without else Spoilt, link.quote, link.quote, link.lastN)
  }

  // ------------------------------------------------ the account tells what the ledger holds

  function Class(x: seq<Piece>, wanted: seq<Piece>, more: seq<Piece>): Copy {
    if x == wanted then Without else if x == wanted + more then With else Spoilt
  }

  /** Only packets before `i` have come in. */
  predicate Below(x: seq<Piece>, i: nat) {
    forall k :: 0 <= k < |x| && x[k].Piece? ==> x[k].i < i
  }

  predicate Tells(a: Account, l: Ledger, wanted: seq<Piece>, more: seq<Piece>, i: nat) {
    && Below(l.held, i) && Below(l.marked, i)
    && a.held == Class(l.held, wanted, more) && a.marked == Class(l.marked, wanted, more)
    && a.quote == l.quote && a.lastN == l.lastN
  }

  /** One more piece of packet `i` is right exactly after the wanted list and under the wanted quote. */
  lemma ClassMore(x: seq<Piece>, wanted: seq<Piece>, i: nat, want: byte, quote: byte, p: Packet)
    requires Below(wanted, i)
    ensures Class(x + PieceOf(i, quote, p), wanted, PieceOf(i, want, p))
         == Added(Class(x, wanted, PieceOf(i, want, p)), p, quote == want)
  {
    if Carries(p) {
      var y, goal := x + PieceOf(i, quote, p), wanted + PieceOf(i, want, p);
      assert y[|x|] == Piece(i, quote, p.d);
      assert goal[|wanted|] == Piece(i, want, p.d);
      assert y[..|x|] == x && goal[..|wanted|] == wanted;
    } else {
      assert x + [] == x;
    }
  }

  lemma BelowMore(x: seq<Piece>, i: nat, quote: byte, p: Packet)
    requires Below(x, i + 1)
    ensures Below(x + PieceOf(i, quote, p), i + 1)
  {
  }

  lemma BookedTells(a: Account, l: Ledger, wanted: seq<Piece>, i: nat, p: Packet, fate: Fate)
    requires Below(wanted, i) && Tells(a, l, wanted, PieceOf(i, a.want, p), i + 1)
    ensures Tells(Booked(a, p, fate), Entered(l, i, p, fate), wanted, PieceOf(i, a.want, p), i + 1)
    ensures Booked(a, p, fate).want == a.want
  {
    hide Class, Below, PieceOf, Added;
    ClassMore(BaseList(l, p.n), wanted, i, a.want, l.quote, p);
    BelowMore(BaseList(l, p.n), i, l.quote, p);
  }

  lemma {:induction false} AllTells(a: Account, l: Ledger, wanted: seq<Piece>, i: nat, p: Packet,
                                        attempts: seq<Attempt>)
    requires Below(wanted, i) && Tells(a, l, wanted, PieceOf(i, a.want, p), i + 1)
    ensures Tells(BookedAll(a, p, attempts), EnteredAll(l, i, p, attempts), wanted, PieceOf(i, a.want, p), i + 1)
    ensures BookedAll(a, p, attempts).want == a.want
    decreases |attempts|
  {
    hide Tells, Below, PieceOf, Booked, Entered;
    if attempts != [] {
      var init, last := attempts[..|attempts| - 1], attempts[|attempts| - 1];
      AllTells(a, l, wanted, i, p, init);
      BookedTells(BookedAll(a, p, init), EnteredAll(l, i, p, init), wanted, i, p, last.fate);
    }
  }

  /** No list holds a packet before it is sent. */
  lemma ClassOpen(x: seq<Piece>, wanted: seq<Piece>, i: nat, want: byte, p: Packet)
    requires Below(x, i)
    ensures Class(x, wanted, PieceOf(i, want, p)) == Class(x, wanted, []) && Below(x, i + 1)
  {
    assert wanted + [] == wanted;
    if Carries(p) {
      assert (wanted + PieceOf(i, want, p))[|wanted|] == Piece(i, want, p.d);
    }
  }

  lemma ClassClose(x: seq<Piece>, wanted: seq<Piece>, more: seq<Piece>, p: Packet)
    requires more == [] <==> !Carries(p)
    ensures Class(x, wanted + more, []) == Passed(Class(x, wanted, more), p)
  {
    assert wanted + more + [] == wanted + more;
    if Carries(p) {
      assert |wanted + more| > |wanted|;
    } else {
      assert wanted + more == wanted;
    }
  }

  lemma {:induction false} BalanceTells(a: Account, l: Ledger, txs: seq<Transmission>)
    requires Tells(a, l, [Root(true)], [], 0)
    ensures var w := WantedAll(a.want, txs); var b := Balance(a, txs);
      Tells(b, Kept(l, txs), w.pieces, [], |txs|) && b.want == w.quote && Below(w.pieces, |txs|)
    decreases |txs|
  {
    if txs != [] {
      hide BookedAll, EnteredAll, Class, Below, PieceOf, Passed;
      var k := |txs| - 1;
      var p, w, b, m := txs[k].packet, WantedAll(a.want, txs[..k]), Balance(a, txs[..k]), Kept(l, txs[..k]);
      BalanceTells(a, l, txs[..k]);
      ClassOpen(m.held, w.pieces, k, w.quote, p);
      ClassOpen(m.marked, w.pieces, k, w.quote, p);
      AllTells(b, m, w.pieces, k, p, txs[k].attempts);
      var after := EnteredAll(m, k, p, txs[k].attempts);
      NonePieces(k, w.quote, p);
      ClassClose(after.held, w.pieces, PieceOf(k, w.quote, p), p);
      ClassClose(after.marked, w.pieces, PieceOf(k, w.quote, p), p);
      ClassOpen(w.pieces, w.pieces, k, w.quote, p);
      BelowMore(w.pieces, k, w.quote, p);
    }
  }

  lemma NonePieces(i: nat, quote: byte, p: Packet)
    ensures PieceOf(i, quote, p) == [] <==> !Carries(p)
  {
  }

  lemma StartTells(start: Link)
    ensures Tells(AccountOf(start), Opened(start), [Root(true)], [], 0)
  {
    assert [Root(true)] + [] == [Root(true)];
    assert [Root(true)][0] != [Root(false)][0];
  }

  /** The exact line: after any session, whatever became of the attempts, the receiver holds each packet once and in
      order if and only if the account says so. */
  lemma LedgerExactly(start: Link, txs: seq<Transmission>)
    ensures var a := Balance(AccountOf(start), txs);
      var l, w := Kept(Opened(start), txs), WantedAll(start.quote, txs);
      && (l.held == w.pieces <==> a.held.Without?)
      && (l.quote == w.quote <==> a.quote == a.want)
      && AfterAll(start, txs) == LinkFrom(start, l)
  {
    hide Balance, Kept, WantedAll, LinkFrom, AfterAll;
    StartTells(start);
    BalanceTells(AccountOf(start), Opened(start), txs);
    OpenedReads(start);
    SessionReads(start, Opened(start), txs);
    var w := WantedAll(start.quote, txs);
    assert w.pieces + [] == w.pieces;
  }
}
