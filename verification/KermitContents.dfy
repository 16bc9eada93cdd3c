/** The account is right for what is in the packets: it says whether a session delivers whatever data they carry. */
module KermitContents {
  import opened Bytes
  import opened KermitProtocol
  import opened KermitDelivery
  import opened KermitLedger
  import opened KermitSession

  /** The same packets with the same fates, but for what the data packets carry. */
  predicate Alike(a: Transmission, b: Transmission) {
    && a.packet.n == b.packet.n && a.packet.t == b.packet.t
    && (if a.packet.t == DATA_TYPE then a.packet.d == [] <==> b.packet.d == [] else a.packet.d == b.packet.d)
    && |a.attempts| == |b.attempts|
    && forall k :: 0 <= k < |a.attempts| ==> a.attempts[k].fate == b.attempts[k].fate
  }

  predicate SameShape(txs: seq<Transmission>, others: seq<Transmission>) {
    |txs| == |others| && forall i :: 0 <= i < |txs| ==> Alike(txs[i], others[i])
  }

  lemma {:induction false} AttemptsDecide(a: Account, p: Packet, q: Packet, s: seq<Attempt>, t: seq<Attempt>)
    requires p.n == q.n && (Carries(p) <==> Carries(q))
    requires forall quote: byte :: QuoteAfter(quote, p) == QuoteAfter(quote, q)
    requires |s| == |t| && forall k :: 0 <= k < |s| ==> s[k].fate == t[k].fate
    ensures BookedAll(a, p, s) == BookedAll(a, q, t)
    decreases |s|
  {
    if s != [] {
      AttemptsDecide(a, p, q, s[..|s| - 1], t[..|t| - 1]);
    }
  }

  lemma {:induction false} ShapeDecides(a: Account, txs: seq<Transmission>, others: seq<Transmission>)
    requires SameShape(txs, others)
    ensures Balance(a, txs) == Balance(a, others)
    decreases |txs|
  {
    hide BookedAll;
    if txs != [] {
      var k := |txs| - 1;
      assert Alike(txs[k], others[k]);
      ShapeDecides(a, txs[..k], others[..k]);
      AttemptsDecide(Balance(a, txs[..k]), txs[k].packet, others[k].packet, txs[k].attempts, others[k].attempts);
    }
  }

  // ------------------------------------------------------- data that tells the packets apart

  /** A stop and `i` strokes; neither is the quote. */
  datatype Alphabet = Alphabet(stop: byte, stroke: byte)

  function Letters(quote: byte): (l: Alphabet)
    ensures l.stop != l.stroke && l.stop != quote && l.stroke != quote && !Control(l.stop) && !Control(l.stroke)
  {
    Alphabet(if quote == 'A' as int then 'C' as int else 'A' as int,
             if quote == 'B' as int then 'C' as int else 'B' as int)
  }

  function Code(l: Alphabet, i: nat): (d: seq<byte>)
    ensures d != []
  {
    [l.stop] + Fill(i, l.stroke)
  }

  function Recoded(l: Alphabet, tx: Transmission, i: nat): Transmission {
    if Carries(tx.packet) then tx.(packet := tx.packet.(d := Code(l, i))) else tx
  }

  function RecodedAll(l: Alphabet, txs: seq<Transmission>): (r: seq<Transmission>)
    ensures |r| == |txs| && forall i :: 0 <= i < |txs| ==> r[i] == Recoded(l, txs[i], i)
  {
    seq(|txs|, i requires 0 <= i < |txs| => Recoded(l, txs[i], i))
  }

  /** After the stop of the last code there are only strokes. */
  lemma LastStop(l: Alphabet, u: seq<byte>, i: nat)
    ensures var s := u + Code(l, i);
      |s| == |u| + 1 + i && s[|u|] == l.stop && forall k :: |u| < k < |s| ==> s[k] == l.stroke
  {
  }

  lemma LastCode(l: Alphabet, u: seq<byte>, i: nat, v: seq<byte>, j: nat)
    requires l.stop != l.stroke && u + Code(l, i) == v + Code(l, j)
    ensures i == j && u == v
  {
    hide Code;
    LastStop(l, u, i);
    LastStop(l, v, j);
    assert (u + Code(l, i))[..|u|] == u && (v + Code(l, j))[..|v|] == v;
  }

  /** A list of pieces that carry their codes under one quote. */
  predicate InCode(l: Alphabet, quote: byte, x: seq<Piece>) {
    |x| > 0 && x[0] == Root(true)
    && forall k :: 1 <= k < |x| ==> x[k].Piece? && x[k].quote == quote && x[k].d == Code(l, x[k].i)
  }

  function Text(l: Alphabet, quote: byte, x: seq<Piece>): seq<byte>
    requires InCode(l, quote, x)
  {
    if |x| == 1 then [] else Text(l, quote, x[..|x| - 1]) + Code(l, x[|x| - 1].i)
  }

  lemma {:induction false} TextTells(l: Alphabet, quote: byte, x: seq<Piece>, y: seq<Piece>)
    requires InCode(l, quote, x) && InCode(l, quote, y) && l.stop != l.stroke
    requires Text(l, quote, x) == Text(l, quote, y)
    ensures x == y
    decreases |x|
  {
    if |x| > 1 && |y| > 1 {
      var u, v := x[..|x| - 1], y[..|y| - 1];
      LastCode(l, Text(l, quote, u), x[|x| - 1].i, Text(l, quote, v), y[|y| - 1].i);
      TextTells(l, quote, u, v);
      assert x == u + [x[|x| - 1]] && y == v + [y[|y| - 1]];
    }
  }

  lemma {:induction false} DecodePlain(quote: byte, data: seq<byte>, d: seq<byte>)
    requires quote !in d
    ensures Decode(quote, Progress(data, false), d) == Progress(data + d, false)
    decreases |d|
  {
    if d == [] {
      assert data + d == data;
    } else {
      DecodePlain(quote, data, d[..|d| - 1]);
      assert d[|d| - 1] in d && data + d == data + d[..|d| - 1] + [d[|d| - 1]];
    }
  }

  lemma {:induction false} ReadingText(start: Link, l: Alphabet, quote: byte, x: seq<Piece>)
    requires InCode(l, quote, x) && l.stop != quote && l.stroke != quote && !start.progress.escape
    ensures Reading(start, x) == Progress(start.progress.data + Text(l, quote, x), false)
    decreases |x|
  {
    if |x| == 1 {
      assert start.progress.data + [] == start.progress.data;
    } else {
      var init, i := x[..|x| - 1], x[|x| - 1].i;
      ReadingText(start, l, quote, init);
      DecodePlain(quote, start.progress.data + Text(l, quote, init), Code(l, i));
      assert start.progress.data + Text(l, quote, init) + Code(l, i)
          == start.progress.data + (Text(l, quote, init) + Code(l, i));
    }
  }

  /** Lists in code are told apart by the data they stand for. */
  lemma ReadingTells(start: Link, x: seq<Piece>, y: seq<Piece>)
    requires var l := Letters(start.quote); InCode(l, start.quote, x) && InCode(l, start.quote, y)
    requires !start.progress.escape && Reading(start, x) == Reading(start, y)
    ensures x == y
  {
    hide Letters, InCode, Code;
    var l := Letters(start.quote);
    ReadingText(start, l, start.quote, x);
    ReadingText(start, l, start.quote, y);
    var data := start.progress.data;
    assert (data + Text(l, start.quote, x))[|data|..] == Text(l, start.quote, x);
    assert (data + Text(l, start.quote, y))[|data|..] == Text(l, start.quote, y);
    TextTells(l, start.quote, x, y);
  }

  /** Packets that carry their codes, and none that sets the quote. */
  predicate Coded(l: Alphabet, txs: seq<Transmission>) {
    forall i :: 0 <= i < |txs| ==>
      txs[i].packet.t != SEND_TYPE && (Carries(txs[i].packet) ==> txs[i].packet.d == Code(l, i))
  }

  predicate LedgerInCode(l: Alphabet, quote: byte, r: Ledger) {
    r.quote == quote && InCode(l, quote, r.held) && InCode(l, quote, r.marked)
  }

  lemma MoreInCode(l: Alphabet, quote: byte, x: seq<Piece>, i: nat, p: Packet)
    requires InCode(l, quote, x) && (Carries(p) ==> p.d == Code(l, i))
    ensures InCode(l, quote, x + PieceOf(i, quote, p))
  {
    hide Code;
  }

  lemma {:induction false} AttemptsInCode(l: Alphabet, quote: byte, r: Ledger, i: nat, p: Packet,
                                               attempts: seq<Attempt>)
    requires LedgerInCode(l, quote, r) && p.t != SEND_TYPE && (Carries(p) ==> p.d == Code(l, i))
    ensures LedgerInCode(l, quote, EnteredAll(r, i, p, attempts))
    decreases |attempts|
  {
    hide InCode, Code, PieceOf;
    if attempts != [] {
      var init := attempts[..|attempts| - 1];
      AttemptsInCode(l, quote, r, i, p, init);
      MoreInCode(l, quote, BaseList(EnteredAll(r, i, p, init), p.n), i, p);
    }
  }

  lemma {:induction false} SessionInCode(l: Alphabet, quote: byte, r: Ledger, txs: seq<Transmission>)
    requires LedgerInCode(l, quote, r) && Coded(l, txs)
    ensures LedgerInCode(l, quote, Kept(r, txs))
    ensures var w := WantedAll(quote, txs); w.quote == quote && InCode(l, quote, w.pieces)
    decreases |txs|
  {
    hide LedgerInCode, EnteredAll, Code, PieceOf;
    if txs != [] {
      var k := |txs| - 1;
      SessionInCode(l, quote, r, txs[..k]);
      AttemptsInCode(l, quote, Kept(r, txs[..k]), k, txs[k].packet, txs[k].attempts);
      MoreInCode(l, quote, WantedAll(quote, txs[..k]).pieces, k, txs[k].packet);
    }
  }

  lemma RecodedShape(l: Alphabet, txs: seq<Transmission>)
    requires forall i :: 0 <= i < |txs| ==> txs[i].packet.t != SEND_TYPE
    ensures SameShape(txs, RecodedAll(l, txs)) && Coded(l, RecodedAll(l, txs))
  {
    hide Code;
  }

  /** Data that shows the loss. */
  lemma CodesShow(start: Link, txs: seq<Transmission>)
    requires start.progress == start.checkpoint && !start.progress.escape
    requires Coded(Letters(start.quote), txs) && !Balance(AccountOf(start), txs).held.Without?
    ensures AfterAll(start, txs).progress != After(Delivery(start.progress, start.quote), txs).progress
  {
    hide Letters, InCode, Coded, Kept, WantedAll, Balance, AfterAll, After, Reading;
    var l, w := Letters(start.quote), WantedAll(start.quote, txs);
    RootInCode(l, start.quote);
    SessionInCode(l, start.quote, Opened(start), txs);
    LedgerExactly(start, txs);
    WantedReads(start, txs);
    var r := Kept(Opened(start), txs);
    if Reading(start, r.held) == Reading(start, w.pieces) {
      ReadingTells(start, r.held, w.pieces);
    }
  }

  lemma RootInCode(l: Alphabet, quote: byte)
    ensures InCode(l, quote, [Root(true)])
  {
  }

  /** The exact line, in terms of the file: after the quote has been agreed on, a session brings in the right data
      whatever its packets carry if and only if the account calls it delivered. */
  lemma WhateverTheyCarry(start: Link, txs: seq<Transmission>)
    requires start.progress == start.checkpoint && !start.progress.escape
    requires forall i :: 0 <= i < |txs| ==> txs[i].packet.t != SEND_TYPE
    ensures (forall others :: SameShape(txs, others) ==>
        AfterAll(start, others).progress == After(Delivery(start.progress, start.quote), others).progress)
      <==> Balance(AccountOf(start), txs).held.Without?
  {
    hide SameShape, Balance, AfterAll, After, Coded, Letters;
    var a := AccountOf(start);
    if Balance(a, txs).held.Without? {
      forall others: seq<Transmission> | SameShape(txs, others)
        ensures AfterAll(start, others).progress == After(Delivery(start.progress, start.quote), others).progress
      {
        ShapeDecides(a, txs, others);
        SessionDelivers(start, others);
      }
    } else {
      var l := Letters(start.quote);
      RecodedShape(l, txs);
      ShapeDecides(a, txs, RecodedAll(l, txs));
      CodesShow(start, RecodedAll(l, txs));
    }
  }
}
