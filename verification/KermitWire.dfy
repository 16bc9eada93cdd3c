/** What stands on the wire: what the block check notices, how packets are answered, and some packets character by
    character. */
module KermitWire {
  import opened Bytes
  import opened KermitProtocol
  import opened KermitDelivery
  import opened KermitEncoding
  import opened KermitReceiver

  // ------------------------------------------------------------------ the block check

  lemma MaskStep(x: nat, m: nat)
    requires m % 2 == 1
    ensures BitAnd(x, m) == x % 2 + 2 * BitAnd(x / 2, m / 2)
  {
    hide BitAnd;
    AndStep(x, m);
  }

  lemma MaskOfTwo(x: nat)
    ensures BitAnd(x, 0x03) == x % 4
  {
    hide BitAnd;
    MaskStep(x, 3);
    MaskStep(x / 2, 1);
    NothingCommon(x / 2 / 2);
  }

  lemma MaskOfThree(x: nat)
    ensures BitAnd(x, 0x07) == x % 8
  {
    hide BitAnd;
    MaskStep(x, 7);
    MaskOfTwo(x / 2);
  }

  lemma MaskOfFour(x: nat)
    ensures BitAnd(x, 0x0F) == x % 16
  {
    hide BitAnd;
    MaskStep(x, 15);
    MaskOfThree(x / 2);
  }

  lemma MaskOfFive(x: nat)
    ensures BitAnd(x, 0x1F) == x % 32
  {
    hide BitAnd;
    MaskStep(x, 31);
    MaskOfFour(x / 2);
  }

  lemma MaskOfSix(x: nat)
    ensures BitAnd(x, 0x3F) == x % 64
  {
    hide BitAnd;
    MaskStep(x, 63);
    MaskOfFive(x / 2);
  }

  lemma NothingCommon(x: nat)
    ensures BitAnd(x, 0) == 0
  {
  }

  /** The fold of the source, with its masks. */
  lemma CheckMasks(sum: nat)
    ensures Check1(sum) == BitAnd(sum + BitAnd(sum / 64, 0x03), 0x3F)
  {
    hide BitAnd;
    MaskOfTwo(sum / 64);
    MaskOfSix(sum + sum / 64 % 4);
  }

  /** Two bytes that differ in one bit differ by a power of two. */
  predicate Near(a: byte, b: byte) {
    var x := if a < b then b - a else a - b;
    x in {1, 2, 4, 8, 16, 32, 64, 128}
  }

  /** They differ in bit `k` and in no other. */
  predicate OneBit(a: nat, b: nat, k: nat) {
    forall j :: 0 <= j < 8 ==> (BitAt(a, j) != BitAt(b, j) <==> j == k)
  }

  lemma {:induction false} SameBits(a: nat, b: nat, n: nat)
    requires a < Pow2(n) && b < Pow2(n) && forall j :: 0 <= j < n ==> BitAt(a, j) == BitAt(b, j)
    ensures a == b
  {
    if n > 0 {
      assert BitAt(a, 0) == BitAt(b, 0);
      forall j | 0 <= j < n - 1 ensures BitAt(a / 2, j) == BitAt(b / 2, j) {
        assert BitAt(a, j + 1) == BitAt(b, j + 1);
      }
      SameBits(a / 2, b / 2, n - 1);
    }
  }

  lemma {:induction false} BitDifference(a: nat, b: nat, k: nat, n: nat)
    requires k < n && a < Pow2(n) && b < Pow2(n)
    requires forall j :: 0 <= j < n ==> (BitAt(a, j) != BitAt(b, j) <==> j == k)
    ensures a - b == Pow2(k) || b - a == Pow2(k)
  {
    forall j | 0 <= j < n - 1 ensures BitAt(a / 2, j) != BitAt(b / 2, j) <==> j + 1 == k {
      assert BitAt(a, j + 1) != BitAt(b, j + 1) <==> j + 1 == k;
    }
    assert BitAt(a, 0) != BitAt(b, 0) <==> 0 == k;
    if k == 0 {
      SameBits(a / 2, b / 2, n - 1);
    } else {
      BitDifference(a / 2, b / 2, k - 1, n - 1);
    }
  }

  lemma OneBitNear(a: byte, b: byte, k: nat)
    requires k < 8 && OneBit(a, b, k)
    ensures Near(a, b)
  {
    assert Pow2(8) == 256 by {
      assert Pow2(4) == 16;
    }
    BitDifference(a, b, k, 8);
    assert Pow2(0) == 1 && Pow2(1) == 2 && Pow2(2) == 4 && Pow2(3) == 8;
    assert Pow2(4) == 16 && Pow2(5) == 32 && Pow2(6) == 64 && Pow2(7) == 128;
  }

  /** The check changes with every single bit of what it covers, the two high ones included. */
  lemma CheckNotices(rest: nat, a: byte, b: byte)
    requires Near(a, b)
    ensures Check1(rest + a) != Check1(rest + b)
  {
    if a < b {
      CheckMoves(rest + a, b - a);
    } else {
      CheckMoves(rest + b, a - b);
    }
  }

  /** Six low bits and the two above them, added once more. */
  function Fold(lo: nat, two: nat): nat {
    if lo + two < 64 then lo + two else lo + two - 64
  }

  lemma CheckOf(hi: nat, lo: nat)
    requires lo < 64
    ensures Check1(64 * hi + lo) == Fold(lo, hi % 4)
  {
  }

  lemma NextQuarter(hi: nat)
    ensures (hi + 1) % 4 == if hi % 4 == 3 then 0 else hi % 4 + 1
  {
  }

  lemma CheckMoves(sum: nat, x: nat)
    requires x in {1, 2, 4, 8, 16, 32, 64, 128}
    ensures Check1(sum) != Check1(sum + x)
  {
    hide Check1;
    var lo, hi := sum % 64, sum / 64;
    CheckOf(hi, lo);
    NextQuarter(hi);
    if x == 64 {
      CheckOf(hi + 1, lo);
    } else if x == 128 {
      NextQuarter(hi + 1);
      CheckOf(hi + 2, lo);
    } else if lo + x < 64 {
      CheckOf(hi, lo + x);
    } else {
      CheckOf(hi + 1, lo + x - 64);
    }
  }

  lemma CharsDiffer(x: nat, y: nat)
    requires x < 64 && y < 64 && x != y
    ensures ToChar(x) != ToChar(y)
  {
  }

  // ------------------------------------------------------------------ damaged packets

  /** A line without a start or a ^C goes on being ignored. */
  predicate Silent(noise: seq<byte>) {
    START_CHAR !in noise && ETX_CHAR !in noise
  }

  lemma {:induction false} SumOfChange(s: seq<byte>, i: nat, c: byte) returns (rest: nat)
    requires i < |s|
    ensures Sum(s) == rest + s[i] && Sum(s[i := c]) == rest + c
    decreases |s|
  {
    var k := |s| - 1;
    if i == k {
      rest := Sum(s[..k]);
      assert s[i := c][..k] == s[..k];
    } else {
      rest := SumOfChange(s[..k], i, c);
      assert s[i := c][..k] == s[..k][i := c];
      rest := rest + s[k];
    }
  }

  /** One flipped bit in the data, after any header, short or long: the packet is rejected. */
  lemma DataFlipRejected(head: seq<byte>, n: nat, t: byte, sum: nat, lenHi: nat, d: seq<byte>, i: nat, c: byte,
                         noise: seq<byte>)
    requires Header(head, n, t, sum, |d|, lenHi) && forall j :: 0 <= j < |d| ==> !Control(d[j])
    requires i < |d| && Near(d[i], c) && Silent(noise)
    ensures Rejected(n, head + d[i := c] + [ToChar(Check1(sum + Sum(d)))] + noise)
  {
    hide Header, Rejected, Check1, ToChar, Near, Sum;
    var check := ToChar(Check1(sum + Sum(d)));
    CheckPrintable(sum + Sum(d));
    if Control(c) {
      var after := d[i + 1..] + [check] + noise;
      StillSilent(d, i + 1, check, noise);
      ControlRejected(head, n, t, sum, |d|, lenHi, d[..i], c, after);
      assert head + d[i := c] + [check] + noise == head + d[..i] + [c] + after;
    } else {
      var rest := SumOfChange(d, i, c);
      CheckNotices(sum + rest, d[i], c);
      CharsDiffer(Check1(sum + rest + d[i]), Check1(sum + rest + c));
      assert sum + rest + d[i] == sum + Sum(d) && sum + rest + c == sum + Sum(d[i := c]);
      WrongCheckRejected(head, n, t, sum, lenHi, d[i := c], check, noise);
    }
  }

  lemma CheckPrintable(sum: nat)
    ensures !Control(ToChar(Check1(sum)))
  {
  }

  lemma StillSilent(d: seq<byte>, i: nat, check: byte, noise: seq<byte>)
    requires i <= |d| && (forall j :: 0 <= j < |d| ==> !Control(d[j])) && !Control(check) && Silent(noise)
    ensures Silent(d[i..] + [check] + noise)
  {
    forall j | 0 <= j < |d[i..]| ensures d[i..][j] != START_CHAR && d[i..][j] != ETX_CHAR {
      assert d[i..][j] == d[i + j];
    }
  }

  /** One flipped bit in the check itself. */
  lemma CheckFlipRejected(head: seq<byte>, n: nat, t: byte, sum: nat, lenHi: nat, d: seq<byte>, c: byte,
                          noise: seq<byte>)
    requires Header(head, n, t, sum, |d|, lenHi) && forall j :: 0 <= j < |d| ==> !Control(d[j])
    requires Near(ToChar(Check1(sum + Sum(d))), c) && Silent(noise)
    ensures Rejected(n, head + d + [c] + noise)
  {
    hide Header, Rejected;
    WrongCheckRejected(head, n, t, sum, lenHi, d, c, noise);
  }

  /** A short packet with one flipped bit anywhere after length and sequence number: type, data or check. */
  lemma ShortFlipRejected(p: Packet, i: nat, c: byte, noise: seq<byte>)
    requires Writable(p) && |p.d| <= 91 && Silent(noise)
    requires 3 <= i < |p.d| + 5 && Near(Framed(p.n, p.t, p.d)[i], c)
    ensures Rejected(p.n, Framed(p.n, p.t, p.d)[i := c] + noise)
  {
    hide Header, Rejected, Check1, ToChar, Near, Sum;
    var l, s, k := ToChar(|p.d| + 3), ToChar(p.n), |p.d|;
    var head, sum := [START_CHAR, l, s, p.t], Sum([l, s, p.t]);
    var check := ToChar(Check1(sum + Sum(p.d)));
    FramedParts(p.n, p.t, p.d);
    ShortHeader(p.n, p.t, k);
    CharRange(k + 3);
    CheckPrintable(sum + Sum(p.d));
    var line := Framed(p.n, p.t, p.d);
    assert line == head + p.d + [check];
    if i == 3 {
      var rest := p.d + [check] + noise;
      assert p.d[0..] == p.d;
      StillSilent(p.d, 0, check, noise);
      if Control(c) {
        TypeRejected(l, p.n, c, rest);
        assert line[i := c] + noise == [START_CHAR, l, s, c] + rest;
      } else {
        TypeFlip(p, c, noise);
        assert line[i := c] + noise == [START_CHAR, l, s, c] + p.d + [check] + noise;
      }
    } else if i < k + 4 {
      assert line[i] == p.d[i - 4];
      DataFlipRejected(head, p.n, p.t, sum, 0, p.d, i - 4, c, noise);
      assert line[i := c] + noise == head + p.d[i - 4 := c] + [check] + noise;
    } else {
      CheckFlipRejected(head, p.n, p.t, sum, 0, p.d, c, noise);
      assert line[i := c] + noise == head + p.d + [c] + noise;
    }
  }

  lemma TypeFlip(p: Packet, c: byte, noise: seq<byte>)
    requires Writable(p) && |p.d| <= 91 && Silent(noise) && Near(p.t, c) && !Control(c)
    ensures var l, s := ToChar(|p.d| + 3), ToChar(p.n);
      Rejected(p.n, [START_CHAR, l, s, c] + p.d + [ToChar(Check1(Sum([l, s, p.t]) + Sum(p.d)))] + noise)
  {
    hide Header, Rejected, Check1, ToChar, Near;
    var l, s := ToChar(|p.d| + 3), ToChar(p.n);
    var rest := Sum([l, s]) + Sum(p.d);
    assert [l, s, p.t][..2] == [l, s] && [l, s, c][..2] == [l, s];
    ShortHeader(p.n, c, |p.d|);
    CheckNotices(rest, p.t, c);
    CharsDiffer(Check1(rest + p.t), Check1(rest + c));
    assert rest + p.t == Sum([l, s, p.t]) + Sum(p.d) && rest + c == Sum([l, s, c]) + Sum(p.d);
    WrongCheckRejected([START_CHAR, l, s, c], p.n, c, Sum([l, s, c]), 0, p.d,
                       ToChar(Check1(Sum([l, s, p.t]) + Sum(p.d))), noise);
  }

  /** A long packet with one flipped bit in its header after the sequence number: type, extended length or header
      check. */
  lemma LongHeaderFlipRejected(p: Packet, i: nat, c: byte, noise: seq<byte>)
    requires Writable(p) && Silent(noise) && 3 <= i < 7
    requires var h := LongHeader(p);
      Near(([START_CHAR] + h + [ToChar(Check1(Sum(h)))])[i], c)
    ensures var h := LongHeader(p);
      Rejected(p.n, ([START_CHAR] + h + [ToChar(Check1(Sum(h)))])[i := c] + noise)
  {
    hide Rejected, Check1, ToChar, Near, Sum;
    var h := LongHeader(p);
    var l, s, t, hi, lo := h[0], h[1], h[2], h[3], h[4];
    var check := ToChar(Check1(Sum(h)));
    var line := [START_CHAR] + h + [check];
    LongHeaderChars(p);
    if i == 3 {
      if Control(c) {
        TypeRejected(l, p.n, c, [hi, lo, check] + noise);
        assert line[i := c] + noise == [START_CHAR, l, s, c] + ([hi, lo, check] + noise);
      } else {
        HeaderFlip(l + s + hi + lo, t, c, l + s + t + hi + lo, l + s + c + hi + lo);
        HeaderCheckRejected(p.n, c, hi, lo, check, noise);
        assert line[i := c] + noise == [START_CHAR, l, s, c, hi, lo, check] + noise;
      }
    } else if i == 4 {
      if Control(c) {
        LongLengthRejected(p.n, t, hi, c, [lo, check] + noise);
        assert line[i := c] + noise == [START_CHAR, l, s, t, c] + ([lo, check] + noise);
      } else {
        HeaderFlip(l + s + t + lo, hi, c, l + s + t + hi + lo, l + s + t + c + lo);
        HeaderCheckRejected(p.n, t, c, lo, check, noise);
        assert line[i := c] + noise == [START_CHAR, l, s, t, c, lo, check] + noise;
      }
    } else if i == 5 {
      if Control(c) {
        LongLengthRejected(p.n, t, hi, c, [check] + noise);
        assert line[i := c] + noise == [START_CHAR, l, s, t, hi, c] + ([check] + noise);
      } else {
        HeaderFlip(l + s + t + hi, lo, c, l + s + t + hi + lo, l + s + t + hi + c);
        HeaderCheckRejected(p.n, t, hi, c, check, noise);
        assert line[i := c] + noise == [START_CHAR, l, s, t, hi, c, check] + noise;
      }
    } else {
      NearDiffers(check, c);
      HeaderCheckRejected(p.n, t, hi, lo, c, noise);
      assert line[i := c] + noise == [START_CHAR, l, s, t, hi, lo, c] + noise;
    }
  }

  lemma NearDiffers(a: byte, b: byte)
    requires Near(a, b)
    ensures a != b
  {
  }

  lemma HeaderFlip(rest: nat, a: byte, b: byte, sum: nat, other: nat)
    requires Near(a, b) && sum == rest + a && other == rest + b
    ensures ToChar(Check1(sum)) != ToChar(Check1(other))
  {
    hide Check1, ToChar, Near;
    CheckNotices(rest, a, b);
    CharsDiffer(Check1(sum), Check1(other));
  }

  lemma LongHeaderChars(p: Packet)
    requires Writable(p)
    ensures var h := LongHeader(p);
      && h[0] == ToChar(0) && h[1] == ToChar(p.n) && h[2] == p.t && (forall j :: 0 <= j < 5 ==> !Control(h[j]))
      && Sum(h) == h[0] as int + h[1] + h[2] + h[3] + h[4] && !Control(ToChar(Check1(Sum(h))))
  {
    hide Check1, ToChar;
    var h := LongHeader(p);
    var len := |p.d| + 1;
    assert len / 95 < 95;
    CharRange(0);
    CharRange(p.n);
    CharRange(len / 95);
    CharRange(len % 95);
    CharRange(Check1(Sum(h)));
    SumOfThree(h[0], h[1], h[2]);
    SumSnoc([h[0], h[1], h[2]], h[3]);
    SumSnoc([h[0], h[1], h[2]] + [h[3]], h[4]);
    assert h == [h[0], h[1], h[2]] + [h[3]] + [h[4]];
  }

  // ------------------------------------------------------------------ answers

  /** `a` reads as the packet numbered `n` of type `t` with data `d`, once its end of line is put to it. */
  predicate ReadsAs(a: seq<byte>, n: nat, t: byte, d: seq<byte>) {
    Intact(Packet(n, t, d), a + [END_CHAR])
  }

  lemma FramedReads(n: nat, t: byte, d: seq<byte>)
    requires n < 224 && !Control(t) && |d| <= 91 && forall i :: 0 <= i < |d| ==> !Control(d[i])
    ensures ReadsAs(Framed(n, t, d), n, t, d)
  {
    hide ScanAll;
    ScanFramed(n, t, d);
    EndOfLine(Packet(n, t, d), Framed(n, t, d), Scanner(End, Sum(Covered(n, t, d)), 1, 0, t));
  }

  /** What `out` has grown by: the padding and the end of line this sender asked for, and between them a packet. */
  ghost predicate Answered(before: seq<byte>, r: Store, n: nat, t: byte, d: seq<byte>) {
    exists a :: ReadsAs(a, n, t, d)
      && r.out == before + (Fill(r.padCount, r.padChar) + a + if r.eol == 0 then [] else [r.eol])
  }

  lemma {:induction false} InnerSilent(r: Store, es: seq<Event>)
    requires Valid(r) && forall i :: 0 <= i < |es| ==> Inner(es[i])
    ensures var r' := ApplyAll(r, es);
      && r'.out == r.out && r'.n == r.n
      && r'.padCount == r.padCount && r'.padChar == r.padChar && r'.eol == r.eol
    decreases |es|
  {
    if es != [] {
      InnerSilent(r, es[..|es| - 1]);
    }
  }

  lemma SequenceSilent(r: Store, n: nat)
    requires Valid(r)
    ensures var s := Apply(r, GotSeq(n));
      && Valid(s) && s.out == r.out && s.n == n
      && s.padCount == r.padCount && s.padChar == r.padChar && s.eol == r.eol && s.parms == r.parms
  {
  }

  /** An intact packet is acknowledged under its own number; only the answer to a send-initiate packet has data. */
  lemma PacketAnswered(r: Store, p: Packet)
    requires Valid(r) && p.n < 224 && p.t != SEND_TYPE
    ensures Answered(r.out, ApplyAll(r, PacketEvents(p)), p.n, ACK_TYPE, [])
  {
    hide Framed, ReadsAs, KData, Scan, Apply, ApplyAll, Valid, DataEvents;
    var inner := [GotType(p.t)] + DataEvents(p.d);
    assert PacketEvents(p) == ([GotSeq(p.n)] + inner) + [Accept(p.t)];
    ApplySnoc(r, [GotSeq(p.n)] + inner, Accept(p.t));
    ApplyConcat(r, [GotSeq(p.n)], inner);
    ApplyOne(r, GotSeq(p.n));
    SequenceSilent(r, p.n);
    DataInner(p);
    InnerSilent(Apply(r, GotSeq(p.n)), inner);
    AcceptAnswers(ApplyAll(Apply(r, GotSeq(p.n)), inner), p.t);
    FramedReads(p.n, ACK_TYPE, []);
  }

  lemma ApplyOne(r: Store, e: Event)
    requires Valid(r)
    ensures ApplyAll(r, [e]) == Apply(r, e)
  {
    hide Apply;
    ApplySnoc(r, [], e);
    assert [] + [e] == [e];
  }

  lemma DataInner(p: Packet)
    ensures forall i :: 0 <= i <= |p.d| ==> Inner(([GotType(p.t)] + DataEvents(p.d))[i])
  {
  }

  lemma AcceptAnswers(r: Store, t: byte)
    requires Valid(r) && t != SEND_TYPE
    ensures var r' := Apply(r, Accept(t));
      && r'.out == r.out + Reply(r, ACK_TYPE, [])
      && r'.padCount == r.padCount && r'.padChar == r.padChar && r'.eol == r.eol
  {
    hide Framed;
  }

  /** An intact send-initiate packet is acknowledged as well, with the parameters offered, and from then on padding, end
      of line and quote are as it announced. */
  lemma SendAnswered(r: Store, p: Packet)
    requires Valid(r) && r.parms == [] && p.n < 224 && p.t == SEND_TYPE
    ensures var s, d := ApplyAll(r, PacketEvents(p)), Gathered(p.d);
      && Answered(r.out, s, p.n, ACK_TYPE, Offered(d))
      && s.padCount == Negotiated(r.(parms := d)).padCount && s.padChar == Negotiated(r.(parms := d)).padChar
      && s.eol == Negotiated(r.(parms := d)).eol && s.quote == Negotiated(r.(parms := d)).quote
  {
    hide Answered, Negotiated, ApplyAll;
    SendCollected(r, p);
    var head := [GotSeq(p.n), GotType(p.t)] + DataEvents(p.d);
    assert PacketEvents(p) == head + [Accept(p.t)];
    ApplySnoc(r, head, Accept(p.t));
    SendAccepted(ApplyAll(r, head));
    NegotiatedFrom(ApplyAll(r, head), r.(parms := Gathered(p.d)));
  }

  lemma SendCollected(r: Store, p: Packet)
    requires Valid(r) && r.parms == [] && p.t == SEND_TYPE
    ensures var s := ApplyAll(r, [GotSeq(p.n), GotType(p.t)] + DataEvents(p.d));
      s.n == p.n && s.out == r.out && s.parms == Gathered(p.d)
  {
    hide ApplyAll;
    var head := [GotSeq(p.n), GotType(p.t)];
    ApplyConcat(r, head, DataEvents(p.d));
    Opening(r, p.n, p.t);
    ApplySnoc(r, [GotSeq(p.n)], GotType(p.t));
    ApplySnoc(r, [], GotSeq(p.n));
    ApplyNothing(r);
    assert [] + [GotSeq(p.n)] == [GotSeq(p.n)] && [GotSeq(p.n)] + [GotType(p.t)] == head;
    SequenceSilent(r, p.n);
    ParmsCollect(ApplyAll(r, head), p.d);
  }

  lemma ApplyNothing(r: Store)
    requires Valid(r)
    ensures ApplyAll(r, []) == r
  {
  }

  lemma SendAccepted(s: Store)
    requires Valid(s) && s.n < 224
    ensures var t, u := Apply(s, Accept(SEND_TYPE)), Negotiated(s);
      && Answered(s.out, t, s.n, ACK_TYPE, Offered(s.parms))
      && t.padCount == u.padCount && t.padChar == u.padChar && t.eol == u.eol && t.quote == u.quote
  {
    hide Framed, ReadsAs, Negotiated, Offered;
    NegotiatedKeeps(s);
    OfferPrintable(s.parms);
    OfferFits(s.parms);
    FramedReads(s.n, ACK_TYPE, Offered(s.parms));
  }

  lemma NegotiatedKeeps(s: Store)
    ensures Negotiated(s).out == s.out && Negotiated(s).n == s.n
  {
  }

  /** Only the parameters decide what is negotiated. */
  lemma NegotiatedFrom(r: Store, s: Store)
    requires r.parms == s.parms
    ensures var t, u := Negotiated(r), Negotiated(s);
      t.padCount == u.padCount && t.padChar == u.padChar && t.eol == u.eol && t.quote == u.quote
  {
    hide KTrans, UnChar;
  }

  lemma OfferFits(parms: seq<byte>)
    ensures |Offered(parms)| <= 13
  {
  }

  /** A rejected packet is answered by a negative acknowledgement under the number it came with. */
  lemma RejectionAnswered(r: Store, n: nat, input: seq<byte>)
    requires Valid(r) && n < 224 && Rejected(n, input)
    ensures Answered(r.out, ApplyAll(r, ScanAll(IDLE, input).1), n, NACK_TYPE, [])
  {
    hide Framed, ReadsAs;
    var es := ScanAll(IDLE, input).1;
    var inner := es[1..|es| - 1];
    assert es == ([GotSeq(n)] + inner) + [Reject];
    ApplySnoc(r, [GotSeq(n)] + inner, Reject);
    ApplyConcat(r, [GotSeq(n)], inner);
    ApplySnoc(r, [], GotSeq(n));
    assert [] + [GotSeq(n)] == [GotSeq(n)];
    SequenceSilent(r, n);
    InnerSilent(Apply(r, GotSeq(n)), inner);
    FramedReads(n, NACK_TYPE, []);
  }

  /** A ^C between packets ends the call. */
  lemma Interruption(m: Machine, noise: seq<byte>)
    requires KermitDelivery.Waiting(m) && Silent(noise)
    ensures Result(Run(m, noise + [ETX_CHAR])) == Interrupted
  {
    hide Run;
    RunConcat(m, noise, [ETX_CHAR]);
    QuietRun(m, noise);
    OneStep(m, ETX_CHAR);
  }

  lemma {:induction false} QuietRun(m: Machine, noise: seq<byte>)
    requires m.scanner == IDLE && Valid(m.store) && Silent(noise)
    ensures Run(m, noise) == m
    decreases |noise|
  {
    if noise != [] {
      QuietRun(m, noise[..|noise| - 1]);
      assert noise[|noise| - 1] in noise;
    }
  }

  lemma OneStep(m: Machine, c: byte)
    requires Valid(m.store)
    ensures Run(m, [c]) == Step(m, c)
  {
    assert [c][..0] == [];
    assert Run(m, [c][..0]) == m;
  }

  // ------------------------------------------------------------------ negotiation

  /** Maximal length, time, padding count, padding character, end of line and quote as a sender writes them. */
  function Announced(maxl: byte, time: byte, npad: nat, padc: byte, eol: nat, quote: byte): seq<byte> {
    [maxl, time, ToChar(npad), Ctl(padc), ToChar(eol), quote]
  }

  /** What a sender announces is taken over, parameter by parameter; what it leaves out keeps its default. */
  lemma Negotiation(r: Store, maxl: byte, time: byte, npad: nat, padc: byte, eol: nat, quote: byte, k: nat,
                    more: seq<byte>)
    requires npad < 95 && (padc < 0x20 || padc == 0x7F) && eol < 0x20 && k <= 6
    requires r.parms == Announced(maxl, time, npad, padc, eol, quote)[..k] + more
    requires if k < 6 then more == [] else |more| <= SEND_DATA_SIZE - 8
    ensures var s := Negotiated(r);
      && s.padCount == (if 3 <= k then npad else 0) && s.padChar == (if 4 <= k then padc else 0)
      && s.eol == (if 5 <= k then eol else END_CHAR) && s.quote == if 6 <= k then quote else K_ESCAPE
  {
    var all := Announced(maxl, time, npad, padc, eol, quote);
    assert forall i :: 0 <= i < k ==> r.parms[i] == all[i];
    CharRange(npad);
    CharRange(eol);
    PadTranslated(padc);
  }

  lemma PadTranslated(padc: byte)
    requires padc < 0x20 || padc == 0x7F
    ensures KTrans(Ctl(padc)) == padc
  {
  }

  /** What the receiver offers: packets of 94 characters answered within a second, no padding, CR, `#`, no eighth-bit
      prefix, check type 1, no repeat prefix, long packets of up to 94 * 95 + 94 characters and no windows. */
  lemma OfferMeans()
    ensures UnChar(OFFER[0]) == 94 && UnChar(OFFER[1]) == 1
    ensures OFFER[6] == 'N' as int && OFFER[7] == '1' as int && OFFER[8] == 'N' as int
    ensures UnChar(OFFER[9]) == 2 && UnChar(OFFER[10]) == 0 && UnChar(OFFER[11]) * 95 + UnChar(OFFER[12]) == 9024
    ensures forall r: Store :: r.parms == OFFER ==>
      var s := Negotiated(r); s.padCount == 0 && s.padChar == 0 && s.eol == END_CHAR && s.quote == '#' as int
  {
  }

  /** The offer has as many parameters as the announcement, up to nine; to a longer one it is offered whole. */
  lemma OfferedExactly(parms: seq<byte>)
    requires |parms| < SEND_DATA_SIZE
    ensures Offered(parms) <= OFFER && |Offered(parms)| == if |parms| <= 9 then |parms| else |OFFER|
  {
  }

  // ------------------------------------------------------------------ character by character

  lemma SumOfThree(a: byte, b: byte, c: byte)
    ensures Sum([a, b, c] + []) == a + b + c && Sum([a, b, c]) == a + b + c
  {
    assert [a, b, c] + [] == [a, b, c];
    assert [a, b, c][..2] == [a, b] && [a, b][..1] == [a] && [a][..0] == [];
    assert Sum([a, b]) == a + b by {
      assert Sum([a]) == a;
    }
  }

  lemma FramedEmpty(n: nat, t: byte)
    requires n < 64
    ensures Framed(n, t, []) == [0x01, 0x23, n + 0x20, t, Check1(0x23 + (n + 0x20) + t) + 0x20]
  {
    hide Check1;
    SumOfThree(0x23, n + 0x20, t);
  }

  /** A break packet numbered 0 and its two possible answers. */
  lemma BreakOnTheWire()
    ensures ShortLine(Packet(0, BREAK_TYPE, [])) == [0x01, 0x23, 0x20, 0x42, 0x27, 0x0D]
    ensures Framed(0, ACK_TYPE, []) == [0x01, 0x23, 0x20, 0x59, 0x3E]
    ensures Framed(0, NACK_TYPE, []) == [0x01, 0x23, 0x20, 0x4E, 0x33]
  {
    hide Framed, Check1;
    FramedEmpty(0, BREAK_TYPE);
    CheckOf(2, 5);
    FramedEmpty(0, ACK_TYPE);
    CheckOf(2, 28);
    FramedEmpty(0, NACK_TYPE);
    CheckOf(2, 17);
  }

  /** It ends a call with an empty file and one acknowledgement. */
  lemma BreakAlone()
    ensures var m := Run(INITIAL, [0x01, 0x23, 0x20, 0x42, 0x27, 0x0D]);
      Result(m) == Received(0) && m.store.out == [0x01, 0x23, 0x20, 0x59, 0x3E, 0x0D]
  {
    hide ScanAll, Framed, ShortLine, PacketEvents, ApplyAll;
    var p := Packet(0, BREAK_TYPE, []);
    BreakOnTheWire();
    ShortIntact(p);
    RunIsScan(INITIAL, ShortLine(p));
    BreakApplied();
  }

  lemma BreakApplied()
    ensures var r := ApplyAll(EMPTY, PacketEvents(Packet(0, BREAK_TYPE, [])));
      r.pos == 0 && r.out == Framed(0, ACK_TYPE, []) + [END_CHAR]
  {
    hide Framed;
    var p := Packet(0, BREAK_TYPE, []);
    assert PacketEvents(p) == [GotSeq(0), GotType(BREAK_TYPE)] + [Accept(BREAK_TYPE)];
    ApplySnoc(EMPTY, [GotSeq(0), GotType(BREAK_TYPE)], Accept(BREAK_TYPE));
    Opening(EMPTY, 0, BREAK_TYPE);
    assert [] + ([] + Framed(0, ACK_TYPE, []) + [END_CHAR]) == Framed(0, ACK_TYPE, []) + [END_CHAR];
  }

  /** The header of a long packet with 94 characters of data: 95 * 1 + 0 with the check. */
  lemma LongOnTheWire()
    ensures Header([0x01, 0x20, 0x21, 0x44, 0x21, 0x20, 0x29], 1, DATA_TYPE, 0xC6 + 0x29, 94, 1)
  {
    hide ScanAll, Header, Check1;
    var p := Packet(1, DATA_TYPE, Fill(94, SPACE));
    var h: seq<byte> := [0x20, 0x21, 0x44, 0x21, 0x20];
    assert LongHeader(p) == h;
    SumOfThree(0x20, 0x21, 0x44);
    SumSnoc([0x20, 0x21, 0x44], 0x21);
    SumSnoc([0x20, 0x21, 0x44, 0x21], 0x20);
    assert [0x20, 0x21, 0x44] + [0x21] == [0x20, 0x21, 0x44, 0x21] && [0x20, 0x21, 0x44, 0x21] + [0x20] == h;
    assert Sum(h) == 0xC6 == 64 * 3 + 6;
    CheckOf(3, 6);
    assert ToChar(Check1(Sum(h))) == 0x29;
    LongHeaderRead(p);
    assert [START_CHAR] + h + [0x29] == [0x01, 0x20, 0x21, 0x44, 0x21, 0x20, 0x29];
  }
}
