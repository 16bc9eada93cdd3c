/** The sender's side of the protocol: packets on the line, control-character prefixing, and a whole file. */
module KermitEncoding {
  import opened Bytes
  import opened KermitProtocol
  import opened KermitDelivery

  // ---------------------------------------------------------------- packets on the line

  lemma {:induction false} SumConcat(a: seq<byte>, b: seq<byte>)
    ensures Sum(a + b) == Sum(a) + Sum(b)
    decreases |b|
  {
    if b == [] {
      assert a + b == a;
    } else {
      assert (a + b)[..|a + b| - 1] == a + b[..|b| - 1];
      SumConcat(a, b[..|b| - 1]);
    }
  }

  lemma ScanNothing(s: Scanner)
    ensures ScanAll(s, []) == (s, [])
  {
  }

  lemma ScanSnoc(s: Scanner, input: seq<byte>, c: byte)
    ensures var (t, es) := ScanAll(s, input); var (u, e) := Scan(t, c);
      ScanAll(s, input + [c]) == (u, if e == Quiet then es else es + [e])
  {
    assert (input + [c])[..|input|] == input;
  }

  /** No character of the packet is a control character, and the lengths can be written. */
  predicate Writable(p: Packet) {
    && p.n < 64 && !Control(p.t) && p.t < 0x80
    && (forall i :: 0 <= i < |p.d| ==> !Control(p.d[i]))
    && |p.d| < 95 * 95 - 1
  }

  /** The scanner when the header has been read and `k` characters are still to come before the check. */
  function InData(sum: nat, k: nat, lenHi: nat, kind: byte): Scanner {
    Rest(Scanner(Data, sum, k + 1, lenHi, kind))
  }

  lemma {:induction false} ScanConcat(s: Scanner, a: seq<byte>, b: seq<byte>)
    ensures var (t, es) := ScanAll(s, a); var (u, fs) := ScanAll(t, b);
      ScanAll(s, a + b) == (u, es + fs)
    decreases |b|
  {
    var (t, es) := ScanAll(s, a);
    if b == [] {
      assert a + b == a;
      assert es + [] == es;
    } else {
      var init, c := b[..|b| - 1], b[|b| - 1];
      assert (a + b)[..|a + b| - 1] == a + init;
      ScanConcat(s, a, init);
      var (u, fs) := ScanAll(t, init);
      var (v, e) := Scan(u, c);
      assert (es + fs) + [e] == es + (fs + [e]);
    }
  }

  lemma DataStep(sum: nat, k: nat, lenHi: nat, kind: byte, c: byte)
    requires k > 0 && !Control(c)
    ensures Scan(InData(sum, k, lenHi, kind), c) == (InData(sum + c, k - 1, lenHi, kind), GotData(c))
  {
  }

  lemma CheckStep(sum: nat, lenHi: nat, kind: byte)
    ensures ScanAll(InData(sum, 0, lenHi, kind), [ToChar(Check1(sum))]) == (Scanner(End, sum, 1, lenHi, kind), [])
  {
    ScanSnoc(InData(sum, 0, lenHi, kind), [], ToChar(Check1(sum)));
    assert [] + [ToChar(Check1(sum))] == [ToChar(Check1(sum))];
  }

  lemma SumSnoc(a: seq<byte>, c: byte)
    ensures Sum(a + [c]) == Sum(a) + c
  {
    assert (a + [c])[..|a|] == a;
  }

  lemma DataSnoc(s: Scanner, init: seq<byte>, sum: nat, k: nat, lenHi: nat, kind: byte, es: seq<Event>, c: byte)
    requires !Control(c) && ScanAll(s, init) == (InData(sum, k + 1, lenHi, kind), es)
    ensures ScanAll(s, init + [c]) == (InData(sum + c, k, lenHi, kind), es + [GotData(c)])
  {
    ScanSnoc(s, init, c);
    DataStep(sum, k + 1, lenHi, kind, c);
  }

  lemma ScanThree(s: Scanner, a: seq<byte>, b: seq<byte>, c: seq<byte>,
                  t: Scanner, es: seq<Event>, u: Scanner, fs: seq<Event>, v: Scanner)
    requires ScanAll(s, a) == (t, es) && ScanAll(t, b) == (u, fs) && ScanAll(u, c) == (v, [])
    ensures ScanAll(s, a + b + c) == (v, es + fs)
  {
    ScanConcat(s, a, b);
    ScanConcat(s, a + b, c);
    assert es + fs + [] == es + fs;
  }

  lemma {:induction false} ScanData(s: Scanner, sum: nat, k: nat, lenHi: nat, kind: byte, d: seq<byte>)
    requires forall i :: 0 <= i < |d| ==> !Control(d[i])
    requires s == InData(sum, k + |d|, lenHi, kind)
    ensures ScanAll(s, d) == (InData(sum + Sum(d), k, lenHi, kind), DataEvents(d))
    decreases |d|
  {
    hide ScanAll;
    if d == [] {
      ScanNothing(s);
    } else {
      var init, c := d[..|d| - 1], d[|d| - 1];
      ScanData(s, sum, k + 1, lenHi, kind, init);
      DataSnoc(s, init, sum + Sum(init), k, lenHi, kind, DataEvents(init), c);
      assert d == init + [c];
      assert DataEvents(d) == DataEvents(init) + [GotData(c)];
    }
  }

  lemma ScanLength(l: byte)
    requires !Control(l)
    ensures ScanAll(IDLE, [START_CHAR, l]) == (Scanner(Seq, l, UnChar(l), 0, 0), [])
  {
    ScanSnoc(IDLE, [], START_CHAR);
    ScanSnoc(IDLE, [START_CHAR], l);
    assert [] + [START_CHAR] == [START_CHAR] && [START_CHAR] + [l] == [START_CHAR, l];
  }

  lemma ScanSequence(l: byte, n: byte)
    requires !Control(l) && !Control(n)
    ensures ScanAll(IDLE, [START_CHAR, l, n]) == (Scanner(Type, l + n, UnChar(l) - 1, 0, 0), [GotSeq(UnChar(n))])
  {
    ScanLength(l);
    ScanSnoc(IDLE, [START_CHAR, l], n);
    assert [START_CHAR, l] + [n] == [START_CHAR, l, n];
    assert [] + [GotSeq(UnChar(n))] == [GotSeq(UnChar(n))];
  }

  lemma ScanType(l: byte, n: byte, t: byte)
    requires !Control(l) && !Control(n) && !Control(t)
    ensures ScanAll(IDLE, [START_CHAR, l, n, t])
         == (if UnChar(l) == 0 then Scanner(LenHi, l + n + t, -2, 0, t)
             else Rest(Scanner(Data, l + n + t, UnChar(l) - 2, 0, t)),
             [GotSeq(UnChar(n)), GotType(t)])
  {
    ScanSequence(l, n);
    ScanSnoc(IDLE, [START_CHAR, l, n], t);
    assert [START_CHAR, l, n] + [t] == [START_CHAR, l, n, t];
    assert [GotSeq(UnChar(n))] + [GotType(t)] == [GotSeq(UnChar(n)), GotType(t)];
  }

  lemma SumFew(a: byte, b: byte, c: byte)
    ensures Sum([a, b, c]) == a as int + b as int + c as int
  {
    SumSnoc([], a);
    SumSnoc([a], b);
    SumSnoc([a, b], c);
    assert [] + [a] == [a] && [a] + [b] == [a, b] && [a, b] + [c] == [a, b, c];
  }

  lemma CharRange(x: nat)
    requires x < 224
    ensures ToChar(x) == x + SPACE && !Control(ToChar(x)) && UnChar(ToChar(x)) == x
  {
  }

  lemma ScanShort(n: nat, t: byte, k: nat)
    requires n < 224 && !Control(t) && k <= 91
    ensures ScanAll(IDLE, [START_CHAR, ToChar(k + 3), ToChar(n), t])
         == (InData(Sum([ToChar(k + 3), ToChar(n), t]), k, 0, t), [GotSeq(n), GotType(t)])
  {
    CharRange(k + 3);
    CharRange(n);
    var l, m := ToChar(k + 3), ToChar(n);
    SumFew(l, m, t);
    ScanType(l, m, t);
  }

  /** Header and data followed by the right check bring the scanner to the end of line. */
  lemma ScanChecked(head: seq<byte>, s: Scanner, sum: nat, lenHi: nat, kind: byte, es: seq<Event>, d: seq<byte>)
    requires forall i :: 0 <= i < |d| ==> !Control(d[i])
    requires ScanAll(IDLE, head) == (s, es) && s == InData(sum, |d|, lenHi, kind)
    ensures ScanAll(IDLE, head + d + [ToChar(Check1(sum + Sum(d)))])
         == (Scanner(End, sum + Sum(d), 1, lenHi, kind), es + DataEvents(d))
  {
    hide ScanAll;
    var total := sum + Sum(d);
    ScanData(s, sum, 0, lenHi, kind, d);
    CheckStep(total, lenHi, kind);
    ScanThree(IDLE, head, d, [ToChar(Check1(total))], s, es,
              InData(total, 0, lenHi, kind), DataEvents(d), Scanner(End, total, 1, lenHi, kind));
  }

  lemma FramedParts(n: nat, t: byte, d: seq<byte>)
    ensures var header := [ToChar(|d| + 3), ToChar(n), t];
      Framed(n, t, d) == [START_CHAR, ToChar(|d| + 3), ToChar(n), t] + d + [ToChar(Check1(Sum(header) + Sum(d)))]
  {
    SumConcat([ToChar(|d| + 3), ToChar(n), t], d);
  }

  /** A short packet, even as framed by the receiver's own reply code, passes the receiver's checks
      up to its end of line. */
  lemma ScanFramed(n: nat, t: byte, d: seq<byte>)
    requires n < 224 && !Control(t) && |d| <= 91
    requires forall i :: 0 <= i < |d| ==> !Control(d[i])
    ensures ScanAll(IDLE, Framed(n, t, d))
         == (Scanner(End, Sum(Covered(n, t, d)), 1, 0, t), [GotSeq(n), GotType(t)] + DataEvents(d))
  {
    hide ScanAll, Check1, Control;
    var header := [ToChar(|d| + 3), ToChar(n), t];
    ScanShort(n, t, |d|);
    FramedParts(n, t, d);
    SumConcat(header, d);
    ScanChecked([START_CHAR, ToChar(|d| + 3), ToChar(n), t], InData(Sum(header), |d|, 0, t), Sum(header), 0, t,
                [GotSeq(n), GotType(t)], d);
  }

  /** A packet on the line with a one-character length. */
  function ShortLine(p: Packet): seq<byte> {
    Framed(p.n, p.t, p.d) + [END_CHAR]
  }

  /** A packet on the line with an extended length, which has a check of its own. */
  function LongHeader(p: Packet): seq<byte> {
    var len := |p.d| + 1;
    [ToChar(0), ToChar(p.n), p.t, ToChar(len / 95), ToChar(len % 95)]
  }

  function LongLine(p: Packet): seq<byte> {
    var covered := LongHeader(p) + [ToChar(Check1(Sum(LongHeader(p))))] + p.d;
    [START_CHAR] + covered + [ToChar(Check1(Sum(covered)))] + [END_CHAR]
  }

  lemma EndOfLine(p: Packet, line: seq<byte>, s: Scanner)
    requires ScanAll(IDLE, line) == (s, [GotSeq(p.n), GotType(p.t)] + DataEvents(p.d))
    requires s.at == End && s.kind == p.t
    ensures Intact(p, line + [END_CHAR])
  {
    ScanSnoc(IDLE, line, END_CHAR);
  }

  /** A well-formed short packet arrives intact. */
  lemma ShortIntact(p: Packet)
    requires Writable(p) && |p.d| <= 91
    ensures Intact(p, ShortLine(p))
  {
    hide ScanAll;
    ScanFramed(p.n, p.t, p.d);
    EndOfLine(p, Framed(p.n, p.t, p.d), Scanner(End, Sum(Covered(p.n, p.t, p.d)), 1, 0, p.t));
  }

  lemma HighLength(l: byte, n: byte, t: byte, hi: byte)
    requires UnChar(l) == 0 && !Control(l) && !Control(n) && !Control(t) && !Control(hi)
    ensures ScanAll(IDLE, [START_CHAR, l, n, t, hi])
         == (Scanner(LenLo, l + n + t + hi, -2, UnChar(hi), t), [GotSeq(UnChar(n)), GotType(t)])
  {
    hide ScanAll;
    ScanType(l, n, t);
    ScanSnoc(IDLE, [START_CHAR, l, n, t], hi);
    assert [START_CHAR, l, n, t] + [hi] == [START_CHAR, l, n, t, hi];
  }

  lemma LowLength(l: byte, n: byte, t: byte, hi: byte, lo: byte)
    requires UnChar(l) == 0 && !Control(l) && !Control(n) && !Control(t) && !Control(hi) && !Control(lo)
    ensures ScanAll(IDLE, [START_CHAR, l, n, t, hi, lo])
         == (Scanner(HeaderCheck, l + n + t + hi + lo, UnChar(hi) * 95 + UnChar(lo), UnChar(hi), t),
             [GotSeq(UnChar(n)), GotType(t)])
  {
    hide ScanAll;
    HighLength(l, n, t, hi);
    ScanSnoc(IDLE, [START_CHAR, l, n, t, hi], lo);
    assert [START_CHAR, l, n, t, hi] + [lo] == [START_CHAR, l, n, t, hi, lo];
  }

  lemma LengthDigits(len: nat)
    requires len < 95 * 95
    ensures len / 95 < 95 && len / 95 * 95 + len % 95 == len
  {
  }

  lemma HeaderStep(input: seq<byte>, sum: nat, k: nat, lenHi: nat, kind: byte, es: seq<Event>)
    requires ScanAll(IDLE, input) == (Scanner(HeaderCheck, sum, k + 1, lenHi, kind), es)
    ensures ScanAll(IDLE, input + [ToChar(Check1(sum))]) == (InData(sum + ToChar(Check1(sum)), k, lenHi, kind), es)
  {
    hide ScanAll;
    CharRange(Check1(sum));
    ScanSnoc(IDLE, input, ToChar(Check1(sum)));
  }

  lemma ScanLong(p: Packet)
    requires Writable(p)
    ensures var h := LongHeader(p); var sum := Sum(h) + ToChar(Check1(Sum(h)));
      ScanAll(IDLE, [START_CHAR] + h + [ToChar(Check1(Sum(h)))])
      == (InData(sum, |p.d|, (|p.d| + 1) / 95, p.t), [GotSeq(p.n), GotType(p.t)])
  {
    hide ScanAll;
    var h, len := LongHeader(p), |p.d| + 1;
    LengthDigits(len);
    CharRange(0);
    CharRange(p.n);
    CharRange(len / 95);
    CharRange(len % 95);
    LowLength(h[0], h[1], h[2], h[3], h[4]);
    SumFive(h[0], h[1], h[2], h[3], h[4]);
    assert [START_CHAR] + h == [START_CHAR, h[0], h[1], h[2], h[3], h[4]];
    HeaderStep([START_CHAR] + h, Sum(h), |p.d|, len / 95, p.t, [GotSeq(p.n), GotType(p.t)]);
  }

  lemma SumFive(a: byte, b: byte, c: byte, d: byte, e: byte)
    ensures Sum([a, b, c, d, e]) == a as int + b as int + c as int + d as int + e as int
  {
    hide Sum;
    SumFew(a, b, c);
    SumSnoc([a, b, c], d);
    SumSnoc([a, b, c, d], e);
    assert [a, b, c] + [d] == [a, b, c, d] && [a, b, c, d] + [e] == [a, b, c, d, e];
  }

  /** A well-formed long packet arrives intact. */
  lemma LongIntact(p: Packet)
    requires Writable(p)
    ensures Intact(p, LongLine(p))
  {
    hide ScanAll, Check1, Sum;
    var h := LongHeader(p);
    var head := h + [ToChar(Check1(Sum(h)))];
    var sum := Sum(h) + ToChar(Check1(Sum(h)));
    ScanLong(p);
    SumSnoc(h, ToChar(Check1(Sum(h))));
    SumConcat(head, p.d);
    assert [START_CHAR] + h + [ToChar(Check1(Sum(h)))] == [START_CHAR] + head;
    ScanChecked([START_CHAR] + head, InData(sum, |p.d|, (|p.d| + 1) / 95, p.t), sum, (|p.d| + 1) / 95, p.t,
                [GotSeq(p.n), GotType(p.t)], p.d);
    assert [START_CHAR] + (head + p.d) == [START_CHAR] + head + p.d;
    EndOfLine(p, [START_CHAR] + (head + p.d) + [ToChar(Check1(Sum(head + p.d)))],
              Scanner(End, sum + Sum(p.d), 1, (|p.d| + 1) / 95, p.t));
  }

  // ------------------------------------------------------- damage that is noticed

  /** Outside packets, whatever starts no packet and is no ^C goes by. */
  lemma {:induction false} NoiseIgnored(noise: seq<byte>)
    requires START_CHAR !in noise && ETX_CHAR !in noise
    ensures ScanAll(IDLE, noise) == (IDLE, [])
    decreases |noise|
  {
    if noise != [] {
      NoiseIgnored(noise[..|noise| - 1]);
    }
  }

  lemma InnerBetween(n: nat, es: seq<Event>)
    requires forall i :: 0 <= i < |es| ==> Inner(es[i])
    ensures var all := [GotSeq(n)] + es + [Reject];
      2 <= |all| && all[0] == GotSeq(n) && all[|all| - 1] == Reject && forall i :: 1 <= i < |all| - 1 ==> Inner(all[i])
  {
    var all := [GotSeq(n)] + es + [Reject];
    assert forall i :: 1 <= i < |all| - 1 ==> all[i] == es[i - 1];
  }

  /** A packet that is rejected at its last character, and the noise after it. */
  lemma RejectedThere(n: nat, es: seq<Event>, line: seq<byte>, noise: seq<byte>)
    requires ScanAll(IDLE, line) == (IDLE, [GotSeq(n)] + es + [Reject])
    requires forall i :: 0 <= i < |es| ==> Inner(es[i])
    requires START_CHAR !in noise && ETX_CHAR !in noise
    ensures Rejected(n, line + noise)
  {
    var all := [GotSeq(n)] + es + [Reject];
    ScanConcat(IDLE, line, noise);
    NoiseIgnored(noise);
    assert all + [] == all;
    InnerBetween(n, es);
  }

  lemma CutThere(line: seq<byte>, noise: seq<byte>)
    requires ScanAll(IDLE, line) == (IDLE, [Reject]) && START_CHAR !in noise && ETX_CHAR !in noise
    ensures Unread(line + noise)
  {
    ScanConcat(IDLE, line, noise);
    NoiseIgnored(noise);
    assert [Reject] + [] == [Reject];
  }

  /** A control character in place of the length or of the sequence number: rejected before any checkpoint is made. */
  lemma ControlCut(l: byte, c: byte, noise: seq<byte>)
    requires !Control(l) && Control(c) && START_CHAR !in noise && ETX_CHAR !in noise
    ensures Unread([START_CHAR, c] + noise) && Unread([START_CHAR, l, c] + noise)
  {
    ScanSnoc(IDLE, [], START_CHAR);
    ScanSnoc(IDLE, [START_CHAR], c);
    assert [] + [START_CHAR] == [START_CHAR] && [START_CHAR] + [c] == [START_CHAR, c] && [] + [Reject] == [Reject];
    CutThere([START_CHAR, c], noise);
    ScanLength(l);
    ScanSnoc(IDLE, [START_CHAR, l], c);
    assert [START_CHAR, l] + [c] == [START_CHAR, l, c];
    CutThere([START_CHAR, l, c], noise);
  }

  /** `head` is read as a header, short or long, that announces sequence number `n`, type `t` and `k` characters of
      data, with the sum so far. */
  predicate Header(head: seq<byte>, n: nat, t: byte, sum: nat, k: nat, lenHi: nat) {
    ScanAll(IDLE, head) == (InData(sum, k, lenHi, t), [GotSeq(n), GotType(t)])
  }

  lemma ShortHeader(n: nat, t: byte, k: nat)
    requires n < 224 && !Control(t) && k <= 91
    ensures Header([START_CHAR, ToChar(k + 3), ToChar(n), t], n, t, Sum([ToChar(k + 3), ToChar(n), t]), k, 0)
  {
    ScanShort(n, t, k);
  }

  lemma LongHeaderRead(p: Packet)
    requires Writable(p)
    ensures var h := LongHeader(p);
      Header([START_CHAR] + h + [ToChar(Check1(Sum(h)))], p.n, p.t, Sum(h) + ToChar(Check1(Sum(h))),
             |p.d|, (|p.d| + 1) / 95)
  {
    ScanLong(p);
  }

  lemma ScanBody(head: seq<byte>, n: nat, t: byte, sum: nat, k: nat, lenHi: nat, d: seq<byte>)
    requires Header(head, n, t, sum, k, lenHi) && |d| <= k && forall i :: 0 <= i < |d| ==> !Control(d[i])
    ensures ScanAll(IDLE, head + d)
         == (InData(sum + Sum(d), k - |d|, lenHi, t), [GotSeq(n)] + ([GotType(t)] + DataEvents(d)))
  {
    hide ScanAll, Sum;
    ScanData(InData(sum, k, lenHi, t), sum, k - |d|, lenHi, t, d);
    ScanConcat(IDLE, head, d);
    assert [GotSeq(n), GotType(t)] + DataEvents(d) == [GotSeq(n)] + ([GotType(t)] + DataEvents(d));
  }

  /** After any header, short or long, as sent or with other characters: a check that does not match what was read is a
      rejection, and noise after it goes by. */
  lemma WrongCheckRejected(head: seq<byte>, n: nat, t: byte, sum: nat, lenHi: nat,
                           d: seq<byte>, check: byte, noise: seq<byte>)
    requires Header(head, n, t, sum, |d|, lenHi) && forall i :: 0 <= i < |d| ==> !Control(d[i])
    requires check != ToChar(Check1(sum + Sum(d))) && START_CHAR !in noise && ETX_CHAR !in noise
    ensures Rejected(n, head + d + [check] + noise)
  {
    hide ScanAll, Rejected, Sum, Header;
    ScanBody(head, n, t, sum, |d|, lenHi, d);
    ScanSnoc(IDLE, head + d, check);
    RejectedThere(n, [GotType(t)] + DataEvents(d), head + d + [check], noise);
  }

  /** After any header: a control character among the data or in place of the check is a rejection. */
  lemma ControlRejected(head: seq<byte>, n: nat, t: byte, sum: nat, k: nat, lenHi: nat,
                        d: seq<byte>, c: byte, noise: seq<byte>)
    requires Header(head, n, t, sum, k, lenHi) && |d| <= k && forall i :: 0 <= i < |d| ==> !Control(d[i])
    requires Control(c) && START_CHAR !in noise && ETX_CHAR !in noise
    ensures Rejected(n, head + d + [c] + noise)
  {
    hide ScanAll, Rejected, Sum, Header;
    ScanBody(head, n, t, sum, k, lenHi, d);
    ScanSnoc(IDLE, head + d, c);
    RejectedThere(n, [GotType(t)] + DataEvents(d), head + d + [c], noise);
  }

  /** After any header, with data and check that match: anything but CR at the end is a rejection. */
  lemma WrongEndRejected(head: seq<byte>, n: nat, t: byte, sum: nat, lenHi: nat, d: seq<byte>, c: byte,
                         noise: seq<byte>)
    requires Header(head, n, t, sum, |d|, lenHi) && forall i :: 0 <= i < |d| ==> !Control(d[i])
    requires c != END_CHAR && START_CHAR !in noise && ETX_CHAR !in noise
    ensures Rejected(n, head + d + [ToChar(Check1(sum + Sum(d)))] + [c] + noise)
  {
    hide ScanAll, Rejected, Sum, Header;
    var check := ToChar(Check1(sum + Sum(d)));
    ScanBody(head, n, t, sum, |d|, lenHi, d);
    CheckStep(sum + Sum(d), lenHi, t);
    ScanConcat(IDLE, head + d, [check]);
    var es := [GotType(t)] + DataEvents(d);
    assert [GotSeq(n)] + es + [] == [GotSeq(n)] + es;
    ScanSnoc(IDLE, head + d + [check], c);
    RejectedThere(n, es, head + d + [check] + [c], noise);
  }

  /** A control character in place of the type, whatever the length. */
  lemma TypeRejected(l: byte, n: nat, c: byte, noise: seq<byte>)
    requires !Control(l) && n < 224 && Control(c) && START_CHAR !in noise && ETX_CHAR !in noise
    ensures Rejected(n, [START_CHAR, l, ToChar(n), c] + noise)
  {
    hide ScanAll, Rejected;
    CharRange(n);
    ScanSequence(l, ToChar(n));
    var none: seq<Event> := [];
    assert [GotSeq(n)] + none == [GotSeq(n)];
    RejectedAfter([START_CHAR, l, ToChar(n)], Scanner(Type, l + ToChar(n), UnChar(l) - 1, 0, 0), n, none, c, noise);
    assert [START_CHAR, l, ToChar(n)] + [c] == [START_CHAR, l, ToChar(n), c];
  }

  /** A control character in place of a digit of a long header. */
  lemma LongLengthRejected(n: nat, t: byte, hi: byte, c: byte, noise: seq<byte>)
    requires n < 224 && !Control(t) && !Control(hi) && Control(c) && START_CHAR !in noise && ETX_CHAR !in noise
    ensures Rejected(n, [START_CHAR, ToChar(0), ToChar(n), t, c] + noise)
    ensures Rejected(n, [START_CHAR, ToChar(0), ToChar(n), t, hi, c] + noise)
  {
    hide ScanAll, Rejected;
    CharRange(0);
    CharRange(n);
    var l, s := ToChar(0), ToChar(n);
    assert [GotSeq(n)] + [GotType(t)] == [GotSeq(n), GotType(t)];
    ScanType(l, s, t);
    RejectedAfter([START_CHAR, l, s, t], Scanner(LenHi, l + s + t, -2, 0, t), n, [GotType(t)], c, noise);
    assert [START_CHAR, l, s, t] + [c] == [START_CHAR, l, s, t, c];
    HighLength(l, s, t, hi);
    RejectedAfter([START_CHAR, l, s, t, hi], Scanner(LenLo, l + s + t + hi, -2, UnChar(hi), t), n, [GotType(t)], c,
                  noise);
    assert [START_CHAR, l, s, t, hi] + [c] == [START_CHAR, l, s, t, hi, c];
  }

  /** A header check that is a control character or does not match what was read. */
  lemma HeaderCheckRejected(n: nat, t: byte, hi: byte, lo: byte, c: byte, noise: seq<byte>)
    requires n < 224 && !Control(t) && !Control(hi) && !Control(lo) && START_CHAR !in noise && ETX_CHAR !in noise
    requires Control(c) || c != ToChar(Check1(ToChar(0) + ToChar(n) + t + hi + lo))
    ensures Rejected(n, [START_CHAR, ToChar(0), ToChar(n), t, hi, lo, c] + noise)
  {
    hide ScanAll, Rejected;
    CharRange(0);
    CharRange(n);
    var l, s := ToChar(0), ToChar(n);
    assert [GotSeq(n)] + [GotType(t)] == [GotSeq(n), GotType(t)];
    LowLength(l, s, t, hi, lo);
    RejectedAfter([START_CHAR, l, s, t, hi, lo],
                  Scanner(HeaderCheck, l + s + t + hi + lo, UnChar(hi) * 95 + UnChar(lo), UnChar(hi), t),
                  n, [GotType(t)], c, noise);
    assert [START_CHAR, l, s, t, hi, lo] + [c] == [START_CHAR, l, s, t, hi, lo, c];
  }

  /** One character that the scanner rejects inside a header. */
  lemma RejectedAfter(line: seq<byte>, s: Scanner, n: nat, es: seq<Event>, c: byte, noise: seq<byte>)
    requires ScanAll(IDLE, line) == (s, [GotSeq(n)] + es) && forall i :: 0 <= i < |es| ==> Inner(es[i])
    requires s.at in {Type, LenHi, LenLo, HeaderCheck}
    requires Control(c) || (s.at == HeaderCheck && c != ToChar(Check1(s.sum)))
    requires START_CHAR !in noise && ETX_CHAR !in noise
    ensures Rejected(n, line + [c] + noise)
  {
    hide ScanAll, Rejected, Check1;
    ScanSnoc(IDLE, line, c);
    RejectedThere(n, es, line + [c], noise);
  }

  // ------------------------------------------------------------------ prefixing

  /** Exclusive or with 64. */
  function Ctl(b: byte): byte {
    if b / 64 % 2 == 1 then b - 64 else b + 64
  }

  /** Section 6.4 of the Kermit Protocol Manual, 6th edition: control characters (judged by their low seven bits)
      and the quote itself are prefixed. */
  function EncodeChar(quote: byte, b: byte): (cs: seq<byte>)
    requires quote < 0x80
  {
    var low := b % 0x80;
    if low < 0x20 || low == 0x7F then [quote, Ctl(b)]
    else if low == quote then [quote, b]
    else [b]
  }

  function Encode(quote: byte, file: seq<byte>): seq<byte>
    requires quote < 0x80
  {
    if file == [] then [] else Encode(quote, file[..|file| - 1]) + EncodeChar(quote, file[|file| - 1])
  }

  lemma DecodeSnoc(quote: byte, p: Progress, d: seq<byte>, c: byte)
    ensures Decode(quote, p, d + [c]) == DecodeChar(quote, Decode(quote, p, d), c)
  {
    assert (d + [c])[..|d|] == d;
  }

  lemma DecodeFew(quote: byte, p: Progress, a: byte, b: byte)
    ensures Decode(quote, p, [a]) == DecodeChar(quote, p, a)
    ensures Decode(quote, p, [a, b]) == DecodeChar(quote, DecodeChar(quote, p, a), b)
  {
    DecodeSnoc(quote, p, [], a);
    DecodeSnoc(quote, p, [a], b);
    assert [] + [a] == [a] && [a] + [b] == [a, b];
  }

  /** One character survives when the quote is not itself translated. */
  lemma CharRoundTrip(quote: byte, data: seq<byte>, b: byte)
    requires 0x20 <= quote < 0x80 && KTrans(quote) == quote
    ensures Decode(quote, Progress(data, false), EncodeChar(quote, b)) == Progress(data + [b], false)
  {
    DecodeFew(quote, Progress(data, false), b, b);
    DecodeFew(quote, Progress(data, false), quote, b);
    DecodeFew(quote, Progress(data, false), quote, Ctl(b));
  }

  lemma {:induction false} FileRoundTrip(quote: byte, file: seq<byte>)
    requires 0x20 <= quote < 0x80 && KTrans(quote) == quote
    ensures Decode(quote, Progress([], false), Encode(quote, file)) == Progress(file, false)
    decreases |file|
  {
    if file != [] {
      var init, b := file[..|file| - 1], file[|file| - 1];
      FileRoundTrip(quote, init);
      DecodeConcat(quote, Progress([], false), Encode(quote, init), EncodeChar(quote, b));
      CharRoundTrip(quote, init, b);
      assert init + [b] == file;
    }
  }

  lemma EncodeOne(quote: byte, b: byte)
    requires quote < 0x80
    ensures Encode(quote, [b]) == EncodeChar(quote, b)
  {
    assert [b][..0] == [] && Encode(quote, [b][..0]) == [];
    assert [] + EncodeChar(quote, b) == EncodeChar(quote, b);
  }

  lemma BadQuote(quote: byte)
    requires 0x20 <= quote < 0x80 && KTrans(quote) != quote
    ensures Decode(quote, Progress([], false), Encode(quote, [quote])) == Progress([KTrans(quote)], false)
  {
    hide Decode, Encode;
    EncodeOne(quote, quote);
    DecodeFew(quote, Progress([], false), quote, quote);
  }

  /** The standard's printable quotes and their neighbours; '?' and '@' to '_' are translated. */
  lemma StableQuotes(quote: byte)
    requires 0x20 <= quote < 0x80
    ensures KTrans(quote) == quote <==> quote != 0x3F && !(0x40 <= quote < 0x60)
  {
  }

  /** The receiver understands every file under a quote exactly if it leaves that quote untranslated. */
  lemma Transparent(quote: byte)
    requires 0x20 <= quote < 0x80
    ensures (forall file :: Decode(quote, Progress([], false), Encode(quote, file)) == Progress(file, false))
      <==> KTrans(quote) == quote
  {
    hide Decode, Encode;
    if KTrans(quote) == quote {
      forall file
        ensures Decode(quote, Progress([], false), Encode(quote, file)) == Progress(file, false)
      {
        FileRoundTrip(quote, file);
      }
    } else {
      BadQuote(quote);
    }
  }

  /** The encoded file contains no character that a packet may not contain. */
  lemma {:induction false} EncodedPrintable(quote: byte, file: seq<byte>)
    requires 0x20 <= quote < 0x80
    ensures forall i :: 0 <= i < |Encode(quote, file)| ==> !Control(Encode(quote, file)[i])
    decreases |file|
  {
    if file != [] {
      EncodedPrintable(quote, file[..|file| - 1]);
      var b := file[|file| - 1];
      assert !Control(Ctl(b)) || 0x20 <= b % 0x80 < 0x7F;
    }
  }
}
