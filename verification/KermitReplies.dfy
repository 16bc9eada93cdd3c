/** Every acknowledgement the receiver sends is a packet that a Kermit receiver accepts. */
module KermitReplies {
  import opened Bytes
  import opened KermitProtocol
  import opened KermitDelivery
  import opened KermitEncoding
  import opened KermitReceiver

  /** LEN counts the characters after it, no NUL would stop `chk1` or `s1_sendpacket`, packet, end of line and NUL
      fit `a_b`, and the running sum in `k_recv` would accept the check. */
  ghost predicate WellFormed(p: seq<byte>) {
    && 5 <= |p| && |p| + 2 <= 24
    && UnChar(p[1]) == |p| - 2
    && 0 !in p
    && ScanAll(IDLE, p).0.at == End
  }

  lemma ReplyWellFormed(n: nat, t: byte, d: seq<byte>)
    requires n < 224 && (t == ACK_TYPE || t == NACK_TYPE) && |d| <= 13
    requires forall i :: 0 <= i < |d| ==> !Control(d[i])
    ensures WellFormed(Framed(n, t, d))
  {
    hide ScanAll, Check1, Sum;
    ScanFramed(n, t, d);
    CharRange(n);
    CharRange(|d| + 3);
    CharRange(Check1(Sum(Covered(n, t, d))));
  }

  /** Sequence numbers read from the line stay in the range of a character. */
  lemma {:induction false} SequenceRange(input: seq<byte>)
    ensures Run(INITIAL, input).store.n < 224
    decreases |input|
  {
    if input != [] {
      var init := input[..|input| - 1];
      SequenceRange(init);
      SequenceStep(Run(INITIAL, init), input[|input| - 1]);
    }
  }

  lemma SequenceStep(m: Machine, c: byte)
    requires Valid(m.store) && m.store.n < 224
    ensures Step(m, c).store.n < 224
  {
    hide Reply, KData;
    KDataKeeps(m.store, c);
  }

  lemma KDataKeeps(r: Store, c: byte)
    requires Valid(r)
    ensures KData(r, c).n == r.n && KData(r, c).out == r.out
  {
  }

  /** What one character makes the receiver send: nothing, or one packet with the padding and end of line asked for. */
  ghost predicate SendsAtMostOnePacket(before: Store, after: Store) {
    after.out == before.out
    || exists p :: (
      && WellFormed(p)
      && after.out == before.out
           + (Fill(after.padCount, after.padChar) + p + if after.eol == 0 then [] else [after.eol]))
  }

  lemma RepliesOnce(r: Store, s: Store, t: byte, d: seq<byte>)
    requires s.n < 224 && (t == ACK_TYPE || t == NACK_TYPE) && |d| <= 13
    requires forall i :: 0 <= i < |d| ==> !Control(d[i])
    requires s.out == r.out
    ensures SendsAtMostOnePacket(r, s.(out := s.out + Reply(s, t, d), parms := []))
  {
    hide Framed, WellFormed;
    ReplyWellFormed(s.n, t, d);
  }

  lemma RepliesToEvent(r: Store, e: Event)
    requires Valid(r) && r.n < 224
    ensures SendsAtMostOnePacket(r, Apply(r, e))
  {
    hide SendsAtMostOnePacket, Offered, Reply;
    match e
    case Reject =>
      RepliesOnce(r, Restored(r), NACK_TYPE, []);
    case Accept(t) =>
      if t == SEND_TYPE {
        OfferPrintable(r.parms);
        OfferShort(r.parms);
        RepliesOnce(r, Negotiated(r), ACK_TYPE, Offered(r.parms));
      } else {
        RepliesOnce(r, r, ACK_TYPE, []);
      }
    case _ =>
      SendsNothing(r, e);
  }

  lemma OfferShort(parms: seq<byte>)
    ensures |Offered(parms)| <= 13
  {
  }

  lemma SendsNothing(r: Store, e: Event)
    requires Valid(r) && !e.Reject? && !e.Accept?
    ensures SendsAtMostOnePacket(r, Apply(r, e))
  {
    hide WellFormed;
    if e.GotData? {
      KDataKeeps(r, e.c);
    }
  }

  /** Whatever comes over the line, each character is answered by at most one packet, and that is well formed. */
  lemma RepliesWellFormed(input: seq<byte>, c: byte)
    ensures SendsAtMostOnePacket(Run(INITIAL, input).store, Run(INITIAL, input + [c]).store)
  {
    hide SendsAtMostOnePacket, Apply, Scan;
    SequenceRange(input);
    var m := Run(INITIAL, input);
    assert (input + [c])[..|input|] == input;
    RepliesToEvent(m.store, Scan(m.scanner, c).1);
  }
}
