/** A whole file over the line, from the sender's bytes to the receiver's memory. */
module KermitDownload {
  import opened Bytes
  import opened KermitProtocol
  import opened KermitDelivery
  import opened KermitLedger
  import opened KermitSession
  import opened KermitEncoding
  import opened KermitReceiver

  /** The data characters of a list of packets, in order. */
  function DataOf(txs: seq<Transmission>): seq<byte> {
    if txs == [] then []
    else
      var last := txs[|txs| - 1].packet;
      DataOf(txs[..|txs| - 1]) + if last.t == DATA_TYPE then last.d else []
  }

  /** Wherever the data is cut into packets, even after a quote, it decodes as one piece. */
  lemma {:induction false} CutAnywhere(d: Delivery, txs: seq<Transmission>)
    requires forall i :: 0 <= i < |txs| ==> txs[i].packet.t != SEND_TYPE
    ensures After(d, txs) == Delivery(Decode(d.quote, d.progress, DataOf(txs)), d.quote)
    decreases |txs|
  {
    if txs != [] {
      var init, last := txs[..|txs| - 1], txs[|txs| - 1].packet;
      CutAnywhere(d, init);
      if last.t == DATA_TYPE {
        DecodeConcat(d.quote, d.progress, DataOf(init), last.d);
      } else {
        assert DataOf(init) + [] == DataOf(init);
      }
    }
  }

  lemma {:induction false} FirstThenRest(d: Delivery, first: Transmission, txs: seq<Transmission>)
    ensures After(d, [first] + txs) == After(After(d, [first]), txs)
    decreases |txs|
  {
    if txs == [] {
      assert [first] + txs == [first];
    } else {
      assert ([first] + txs)[..|txs|] == [first] + txs[..|txs| - 1];
      FirstThenRest(d, first, txs[..|txs| - 1]);
    }
  }

  lemma AfterFirst(d: Delivery, first: Transmission)
    requires first.packet.t == SEND_TYPE
    ensures After(d, [first]) == Delivery(d.progress, QuoteOf(first.packet.d))
  {
    assert [first][..0] == [];
    assert After(d, [first][..0]) == d;
  }

  const BEGINNING := Delivery(Progress([], false), K_ESCAPE)

  lemma FileArrives(first: Transmission, txs: seq<Transmission>, quote: byte, file: seq<byte>)
    requires first.packet.t == SEND_TYPE && QuoteOf(first.packet.d) == quote
    requires 0x20 <= quote < 0x80 && KTrans(quote) == quote
    requires forall i :: 0 <= i < |txs| ==> txs[i].packet.t != SEND_TYPE
    requires DataOf(txs) == Encode(quote, file)
    ensures After(BEGINNING, [first] + txs) == Delivery(Progress(file, false), quote)
  {
    FirstThenRest(BEGINNING, first, txs);
    AfterFirst(BEGINNING, first);
    CutAnywhere(After(BEGINNING, [first]), txs);
    FileRoundTrip(quote, file);
  }

  /** What the sender puts on the line: the packets, each with all its attempts, and at last the break packet. */
  function Line(txs: seq<Transmission>, attempts: seq<Attempt>, arrived: seq<byte>): seq<byte> {
    SessionInput(txs) + (Inputs(attempts) + arrived)
  }

  /** The account of the receiver before the first packet. */
  const AT_FIRST := Account(Without, Without, K_ESCAPE, K_ESCAPE, -1)

  /** Download: a send-initiate packet that announces the quote, then any packets whose data is the encoded file, then
      a break packet, in a session that the account calls delivered, leave exactly the file in memory, and `k_recv`
      returns its length. */
  lemma Download(first: Transmission, txs: seq<Transmission>, last: Packet, attempts: seq<Attempt>, arrived: seq<byte>,
                 quote: byte, file: seq<byte>)
    requires first.packet.t == SEND_TYPE && QuoteOf(first.packet.d) == quote
    requires 0x20 <= quote < 0x80 && KTrans(quote) == quote
    requires forall i :: 0 <= i < |txs| ==> txs[i].packet.t != SEND_TYPE
    requires DataOf(txs) == Encode(quote, file)
    requires Sent(first) && forall i :: 0 <= i < |txs| ==> Sent(txs[i])
    requires last.t == BREAK_TYPE && Intact(last, arrived)
    requires forall i :: 0 <= i < |attempts| ==> Meets(last, attempts[i]) && !attempts[i].fate.Arrives?
    requires Balance(AT_FIRST, [first] + txs + [Transmission(last, attempts + [Attempt(arrived, Arrives)])])
               .held.Without?
    ensures var m := Run(INITIAL, Line([first] + txs, attempts, arrived));
      Result(m) == Received(|file|) && file <= m.store.mem
  {
    hide Run, Balance, After, Encode, Meets, Sent, Intact;
    AtFirst();
    FileArrives(first, txs, quote, file);
    BreakEffect(INITIAL, [first] + txs, last, attempts, arrived);
  }

  lemma AtFirst()
    ensures KermitDelivery.Waiting(INITIAL) && AccountOf(LinkOf(INITIAL)) == AT_FIRST
    ensures Delivery(Current(INITIAL.store), INITIAL.store.quote) == BEGINNING
  {
  }
}
