/** How good the dividers are that the PLL search finds, and the search at one frequency. */
module PllBest {
  import opened Options
  import opened Pll

  // ------------------------------------------------------------------ one split

  /** The output divider is the largest by which the ratio can be scaled up, or it already keeps the oscillator in the
      upper half of its range. */
  lemma DividerLarge(nr: int, nfi: int, most: int, least: int)
    requires nr >= 1 && 1 <= nfi < NF_MAX && most >= 1
    ensures var s := Refactored(nr, nfi, most, least);
      s.od >= Min(Min(NF_MAX / nfi, NO_MAX), most) || (s.od >= least && s.od >= most / 2)
  {
    hide Divisor;
  }

  /** So the oscillator is fast enough whenever scaling by some `k` can make it so. */
  lemma DividerEnough(nr: int, nfi: int, most: int, least: int, k: int)
    requires nr >= 1 && 1 <= nfi < NF_MAX && most >= 1
    requires 1 <= k <= Min(Min(NF_MAX / nfi, NO_MAX), most) && k >= least
    ensures Refactored(nr, nfi, most, least).od >= least
  {
    hide Refactored;
    DividerLarge(nr, nfi, most, least);
  }

  /** Unless it scales up, a round takes out of the reference divider as much as any divisor can. */
  lemma ReferenceLeast(nr: int, nfi: int, most: int, least: int, e: int)
    requires nr >= 1 && 1 <= nfi < NF_MAX && most >= 1
    requires 1 <= e <= Min(most, NO_MAX) && nr % e == 0
    ensures var s := Refactored(nr, nfi, most, least); s.nr == nr || (1 <= s.nr && s.nr * e <= nr)
  {
    QuotientFalls(nr, e, Divisor(nr, Min(most, NO_MAX)));
  }

  lemma QuotientFalls(nr: int, e: int, d: int)
    requires nr >= 1 && 1 <= e <= d && nr % d == 0
    ensures 1 <= nr / d && nr / d * e <= nr
  {
    DivideExactly(nr, d);
    assert nr / d * e <= nr / d * d;
  }

  /** A round offers its split exactly if the request is no faster than the oscillator, the ratio is near enough, the
      undivided reference is not too fast, and the hardware accepts the split. */
  lemma TrialExactly(fin: Positive, fout: Positive, nfi: nat, merr: real)
    requires nfi < NF_MAX && NearestNr(nfi, fout / fin) >= 1
    ensures var nr := NearestNr(nfi, fout / fin);
      Trial(fin, fout, nfi, merr, true).Some? <==>
        && fout <= VCO_MAX && fin / nr as real <= REF_MAX && Near(Error(nfi, nr, fout / fin), merr)
        && (SplitExact(nr, nfi, Most(fout), Least(fout)); var s := Refactored(nr, nfi, Most(fout), Least(fout));
            Programmable(fin, Choice(s.nr, s.nf, s.od, s.nf, 0.0)))
  {
    hide Refactored, Near, Error, Most, Least;
    MostPositive(fout);
    var nr := NearestNr(nfi, fout / fin);
    if fout <= VCO_MAX {
      SplitExact(nr, nfi, Most(fout), Least(fout));
    }
  }

  /** Half of the range is fast enough: 7 goes into the output divider, doubled to 14, rather than being kept. */
  lemma HalfIsEnough(nfi: int)
    requires 1 <= nfi <= 32
    ensures Refactored(7, nfi, 28, 14) == Split(1, 2 * nfi, 14, 2)
  {
    assert 7 % 14 != 0;
    assert NF_MAX / nfi >= 2;
  }

  // ------------------------------------------------------------------ the best of the rounds

  lemma {:induction false} ErrorBound(fin: Positive, fout: Positive, lo: nat, hi: nat)
    requires lo <= hi <= NF_MAX
    ensures 0.0 <= SearchRounds(fin, fout, lo, hi).merr <= TOLERANCE + 0.000000016 * (hi - lo) as real
    ensures SearchRounds(fin, fout, lo, hi).best.None? ==> SearchRounds(fin, fout, lo, hi).merr == TOLERANCE
    decreases hi
  {
    if lo < hi {
      hide Trial;
      var s := SearchRounds(fin, fout, lo, hi - 1);
      ErrorBound(fin, fout, lo, hi - 1);
      RoundBound(fin, fout, hi - 1, s.merr, s.best.None?);
    }
  }

  /** What a round offers is at most a millionth worse than the best before it. */
  lemma RoundBound(fin: Positive, fout: Positive, nfi: nat, merr: real, first: bool)
    requires nfi < NF_MAX && 0.0 <= merr <= 0.0157
    ensures var c := Trial(fin, fout, nfi, merr, first);
      c.Some? ==> Abs(c.value.err) <= merr + 0.000000016
  {
    hide Refactored, NearestNr, Error, Most, InRange;
  }

  /** A round that is near enough offers the same whatever the best error before it. */
  lemma SameOffer(fin: Positive, fout: Positive, nfi: nat, merr: real, first: bool)
    requires nfi < NF_MAX && Trial(fin, fout, nfi, TOLERANCE, false).Some?
    ensures var c := Trial(fin, fout, nfi, TOLERANCE, false);
      Trial(fin, fout, nfi, merr, first) == if Near(c.value.err, merr) then c else None
  {
    hide Refactored, NearestNr, Error, Most, Near, InRange;
  }

  /** After round `n` and any later rounds the best error is at most that of round `n`, up to a millionth for each
      round, provided that round `n` offered something without scaling and with a reference divider that is not too
      large. */
  lemma {:induction false} NoBetterRound(fin: Positive, fout: Positive, lo: nat, n: nat, hi: nat)
    requires lo <= n < hi <= NF_MAX && Trial(fin, fout, n, TOLERANCE, false).Some?
    ensures var s, c := SearchRounds(fin, fout, lo, hi), Trial(fin, fout, n, TOLERANCE, false).value;
      && s.best.Some?
      && (c.nr <= s.best.value.nr ==> s.merr <= Abs(c.err) + 0.000000016 * (hi - n) as real)
    decreases hi
  {
    hide Trial;
    var s := SearchRounds(fin, fout, lo, hi - 1);
    ErrorBound(fin, fout, lo, hi - 1);
    RoundBound(fin, fout, hi - 1, s.merr, s.best.None?);
    if n == hi - 1 {
      SameOffer(fin, fout, n, s.merr, s.best.None?);
      SameOffer(fin, fout, n, TOLERANCE, true);
      OfferNear(fin, fout, n);
    } else {
      NoBetterRound(fin, fout, lo, n, hi - 1);
    }
  }

  lemma OfferNear(fin: Positive, fout: Positive, nfi: nat)
    requires nfi < NF_MAX && Trial(fin, fout, nfi, TOLERANCE, false).Some?
    ensures Near(Trial(fin, fout, nfi, TOLERANCE, false).value.err, TOLERANCE)
  {
    hide Refactored, NearestNr, Error, Most, Near, InRange;
  }

  lemma Slack(k: nat)
    requires k <= NF_MAX
    ensures 0.000000016 * k as real <= 0.0000011
  {
  }

  /** No round without scaling and with a reference divider at most the chosen one's comes closer to the request by more
      than a millionth of it. */
  lemma ChosenBest(fin: Positive, fout: Positive, n: nat)
    requires Chosen(fin, fout).Some? && FirstRound(fin, fout) <= n < NF_MAX
    requires Trial(fin, fout, n, TOLERANCE, false).Some?
    ensures var x, c := Chosen(fin, fout).value, Trial(fin, fout, n, TOLERANCE, false).value;
      c.nr <= x.nr ==> Abs(x.err) <= Abs(c.err) + 0.0000011
  {
    hide Trial, SearchRounds, Fout, Programmable, FirstRound, Abs;
    Slack(NF_MAX - n);
    NoBetterRound(fin, fout, FirstRound(fin, fout), n, NF_MAX);
    SearchSound(fin, fout, FirstRound(fin, fout), NF_MAX);
  }

  // ------------------------------------------------------------------ the search at one frequency

  const FIN: Positive := 26000000.0
  const FOUT: Positive := 400000000.0

  lemma Ratio(n: nat)
    ensures n as real / (FOUT / FIN) == n as real * 0.065
  {
    assert FOUT / FIN == 200.0 / 13.0;
    var q := n as real / (200.0 / 13.0);
    assert q * (200.0 / 13.0) == n as real;
  }

  /** The nearest reference divider at 400 MHz. */
  lemma Nearest(n: nat)
    requires 15 <= n < NF_MAX
    ensures NearestNr(n, FOUT / FIN) == if n <= 23 then 1 else if n <= 38 then 2 else if n <= 53 then 3 else 4
  {
    Ratio(n);
    assert 0.975 <= n as real * 0.065 <= 4.095;
  }

  lemma ErrorAt(n: nat, nr: int)
    requires nr >= 1
    ensures Error(n, nr, FOUT / FIN) == 1.0 - n as real * 0.065 / nr as real
  {
    var v := FOUT / FIN;
    assert v == 200.0 / 13.0;
    var x := n as real / nr as real;
    assert x * nr as real == n as real;
    var q := x / v;
    assert q * v == x;
    assert q == x * 0.065;
    var z := n as real * 0.065 / nr as real;
    assert z * nr as real == n as real * 0.065;
    Cancelled(x * 0.065 - z, nr as real);
  }

  lemma Cancelled(a: real, b: real)
    requires b > 0.0 && a * b == 0.0
    ensures a == 0.0
  {
  }

  /** Rounds 31 and 46 are near; rounds 61 and 62 come less near than round 46. */
  lemma FarRound(n: nat, merr: real, first: bool)
    requires 15 <= n < NF_MAX && n != 31 && n != 46
    requires 0.0 < merr <= TOLERANCE && (n > 46 ==> merr == 1.0 / 300.0)
    ensures Trial(FIN, FOUT, n, merr, first).None?
  {
    hide Refactored, InRange, Most, Least;
    Nearest(n);
    ErrorAt(n, NearestNr(n, FOUT / FIN));
  }

  lemma {:induction false} FarRounds(lo: nat, hi: nat)
    requires 15 <= lo <= hi <= NF_MAX
    requires hi <= 31 || (31 < lo && hi <= 46) || 46 < lo
    requires var s := SearchRounds(FIN, FOUT, 15, lo); 0.0 < s.merr <= TOLERANCE && (hi > 46 ==> s.merr == 1.0 / 300.0)
    ensures SearchRounds(FIN, FOUT, 15, hi) == SearchRounds(FIN, FOUT, 15, lo)
    decreases hi
  {
    hide Trial;
    if lo < hi {
      FarRounds(lo, hi - 1);
      var s := SearchRounds(FIN, FOUT, 15, lo);
      FarRound(hi - 1, s.merr, s.best.None?);
    }
  }

  lemma RoundOne()
    ensures Trial(FIN, FOUT, 31, TOLERANCE, true) == Some(Choice(1, 62, 4, 62, -0.0075))
  {
    Nearest(31);
    ErrorAt(31, 2);
    LimitsAt();
    assert Divisor(2, 4) == 2;
  }

  lemma RoundTwo()
    ensures Trial(FIN, FOUT, 46, 0.0075, false) == Some(Choice(1, 46, 3, 46, 1.0 / 300.0))
  {
    Nearest(46);
    ErrorAt(46, 3);
    LimitsAt();
    assert Divisor(3, 4) == 3;
  }

  lemma LimitsAt()
    ensures Most(FOUT) == 4 && Least(FOUT) == 1
  {
  }

  /** 400 MHz from 26 MHz: 31/2 gives 403 MHz and 46/3 gives 398.67 MHz, which is nearer, though its output divider is
      smaller. */
  lemma FourHundred()
    ensures Chosen(FIN, FOUT) == Some(Choice(1, 46, 3, 46, 1.0 / 300.0))
  {
    hide Trial;
    assert FirstRound(FIN, FOUT) == 15;
    assert SearchRounds(FIN, FOUT, 15, 15) == Search(None, TOLERANCE);
    FarRounds(15, 31);
    RoundOne();
    assert SearchRounds(FIN, FOUT, 15, 32) == Search(Some(Choice(1, 62, 4, 62, -0.0075)), 0.0075);
    FarRounds(32, 46);
    RoundTwo();
    assert SearchRounds(FIN, FOUT, 15, 47) == Search(Some(Choice(1, 46, 3, 46, 1.0 / 300.0)), 1.0 / 300.0);
    FarRounds(47, NF_MAX);
  }

  // ------------------------------------------------------------------ and at another one

  const FOUT_109: Positive := 109000000.0

  function Nearest109(n: nat): int {
    (52 * n + 109) / 218
  }

  lemma Ratio109(n: nat)
    ensures n as real / (FOUT_109 / FIN) == n as real * 26.0 / 109.0
  {
    assert FOUT_109 / FIN == 109.0 / 26.0;
    var q := n as real / (109.0 / 26.0);
    assert q * (109.0 / 26.0) == n as real;
    assert q == n as real * 26.0 / 109.0;
  }

  lemma NearestAt109(n: nat)
    requires 4 <= n < NF_MAX
    ensures NearestNr(n, FOUT_109 / FIN) == Nearest109(n) >= 1
  {
    Ratio109(n);
    var k := Nearest109(n);
    assert 218 * k <= 52 * n + 109 < 218 * k + 218;
    assert 52 * n + 109 != 218 * k;
    assert (k as real - 0.5) * 109.0 < n as real * 26.0 < (k as real + 0.5) * 109.0;
  }

  lemma ErrorAt109(n: nat, nr: int)
    requires nr >= 1
    ensures Error(n, nr, FOUT_109 / FIN) * (nr as real * 109.0) == nr as real * 109.0 - n as real * 26.0
  {
    var v := FOUT_109 / FIN;
    assert v == 109.0 / 26.0;
    var x := n as real / nr as real;
    assert x * nr as real == n as real;
    var q := x / v;
    assert q * v == x;
    assert q * 109.0 == x * 26.0;
  }

  /** How far from the ratio a round is, in parts of `109 * nr`. */
  function Off109(n: nat): int {
    var x := 109 * Nearest109(n) - 26 * n;
    if x < 0 then -x else x
  }

  /** `merr` is `part / whole`. */
  lemma FarAt109(n: nat, part: nat, whole: nat, first: bool)
    requires 4 <= n < NF_MAX && 0 < part < whole <= 1000
    requires Off109(n) * whole * 1000000 >= part * (109 * Nearest109(n)) * 1000001
    ensures Trial(FIN, FOUT_109, n, part as real / whole as real, first).None?
  {
    hide Refactored, InRange, Most, Least, Error, Nearest109, NearestNr, Off109, Near;
    NearestAt109(n);
    var k := Nearest109(n);
    var err, merr := Error(n, k, FOUT_109 / FIN), part as real / whole as real;
    OffError(n);
    FarProduct(Abs(err), merr, 109 * k, Off109(n), part, whole);
    NotNear(err, merr);
  }

  lemma NotNear(err: real, merr: real)
    requires Abs(err) >= merr * 1.000001 && Abs(err) >= 0.0000000000000001
    ensures !Near(err, merr)
  {
  }

  lemma OffError(n: nat)
    requires 4 <= n < NF_MAX
    ensures Nearest109(n) >= 1
    ensures Abs(Error(n, Nearest109(n), FOUT_109 / FIN)) * (109 * Nearest109(n)) as real == Off109(n) as real
  {
    hide Error, Nearest109, NearestNr;
    NearestAt109(n);
    var k := Nearest109(n);
    ErrorAt109(n, k);
    ProductOfInts(109, k);
    ProductOfInts(26, n);
    AbsProduct(Error(n, k, FOUT_109 / FIN), (109 * k) as real);
  }

  lemma AbsProduct(x: real, y: real)
    requires y > 0.0
    ensures Abs(x) * y == Abs(x * y)
  {
  }

  lemma FarProduct(e: real, merr: real, d: int, off: int, part: nat, whole: nat)
    requires d >= 1 && 1 <= whole <= 1000 && part >= 1
    requires e * d as real == off as real && merr * whole as real == part as real
    requires off * whole * 1000000 >= part * d * 1000001
    ensures e >= merr * 1.000001 && e >= 0.0000000000000001
  {
    var x := e - merr * 1.000001;
    var y := d as real * whole as real;
    assert x * y == (e * d as real) * whole as real - (merr * whole as real) * d as real * 1.000001;
    ProductOfInts(off, whole);
    ProductOfInts(part, d);
    assert x * y >= 0.0;
    NotNegative(x, y);
    assert (merr - 0.001) * whole as real == part as real - 0.001 * whole as real >= 0.0;
    NotNegative(merr - 0.001, whole as real);
  }

  lemma NotNegative(x: real, y: real)
    requires y > 0.0 && x * y >= 0.0
    ensures x >= 0.0
  {
  }

  /** Which rounds are far from the request, with the best error before them. */
  lemma Far109(n: nat, first: bool)
    requires 4 <= n < NF_MAX
    ensures n < 17 ==> Trial(FIN, FOUT_109, n, TOLERANCE, first).None?
    ensures 17 < n < 38 && n !in {21, 25, 29, 34} ==> Trial(FIN, FOUT_109, n, 3.0 / 218.0, first).None?
    ensures 38 < n < 42 ==> Trial(FIN, FOUT_109, n, 7.0 / 981.0, first).None?
    ensures 42 < n < 63 ==> Trial(FIN, FOUT_109, n, 1.0 / 545.0, first).None?
  {
    hide Trial, Nearest109, Off109;
    OffBounds(n);
    if n < 17 {
      FarAt109(n, 1, 64, first);
    } else if 17 < n < 38 && n !in {21, 25, 29, 34} {
      FarAt109(n, 3, 218, first);
    } else if 38 < n < 42 {
      FarAt109(n, 7, 981, first);
    } else if 42 < n < 63 {
      FarAt109(n, 1, 545, first);
    }
  }

  lemma OffBounds(n: nat)
    requires 4 <= n < NF_MAX
    ensures n < 17 ==> Off109(n) * 64 * 1000000 >= 109 * Nearest109(n) * 1000001
    ensures 17 < n < 38 && n !in {21, 25, 29, 34} ==> Off109(n) * 218 * 1000000 >= 3 * (109 * Nearest109(n)) * 1000001
    ensures 38 < n < 42 ==> Off109(n) * 981 * 1000000 >= 7 * (109 * Nearest109(n)) * 1000001
    ensures 42 < n < 63 ==> Off109(n) * 545 * 1000000 >= 109 * Nearest109(n) * 1000001
  {
    hide Off109, Nearest109;
    if n < 38 {
      OffBelow(n);
    } else {
      OffAbove(n);
    }
  }

  lemma OffBelow(n: nat)
    requires 4 <= n < 38
    ensures n < 17 ==> Off109(n) * 64 * 1000000 >= 109 * Nearest109(n) * 1000001
    ensures 17 < n && n !in {21, 25, 29, 34} ==> Off109(n) * 218 * 1000000 >= 3 * (109 * Nearest109(n)) * 1000001
  {
    if n < 17 {
      OffFirst(n);
    } else if n > 17 && n !in {21, 25, 29, 34} {
      OffSecond(n);
    }
  }

  lemma OffFirst(n: nat)
    requires 4 <= n < 17
    ensures Off109(n) * 64 * 1000000 >= 109 * Nearest109(n) * 1000001
  {
  }

  lemma OffSecond(n: nat)
    requires 17 < n < 38 && n !in {21, 25, 29, 34}
    ensures Off109(n) * 218 * 1000000 >= 3 * (109 * Nearest109(n)) * 1000001
  {
  }

  lemma OffAbove(n: nat)
    requires 38 <= n < NF_MAX
    ensures 38 < n < 42 ==> Off109(n) * 981 * 1000000 >= 7 * (109 * Nearest109(n)) * 1000001
    ensures 42 < n < 63 ==> Off109(n) * 545 * 1000000 >= 109 * Nearest109(n) * 1000001
  {
  }

  lemma Limits109()
    ensures Most(FOUT_109) == 16 && Least(FOUT_109) == 4
  {
  }

  /** Round, reference divider and the multiple by which it is scaled. */
  predicate NearRound(n: nat, nr: int, nor: int) {
    (n, nr, nor) in {(17, 4, 3), (21, 5, 3), (25, 6, 2), (29, 7, 2), (34, 8, 1), (38, 9, 1), (42, 10, 1), (63, 15, 1)}
  }

  lemma DivisorOfSmall(nr: int)
    requires 1 <= nr <= NO_MAX
    ensures Divisor(nr, NO_MAX) == nr
  {
    hide Divisor;
    assert nr % nr == 0;
    NotAbove(nr, Divisor(nr, NO_MAX));
  }

  lemma NotAbove(n: int, d: int)
    requires n >= 1 && d >= 1 && n % d == 0
    ensures d <= n
  {
  }

  /** The near rounds: the reference divider goes into the output divider, and a multiple of both with it. */
  lemma Split109(n: nat, nr: int, nor: int)
    requires NearRound(n, nr, nor)
    ensures Refactored(nr, n, 16, 4) == Split(1, n * nor, nr * nor, nor)
  {
    hide Refactored;
    Multiples(n, nr, nor);
    SplitOfSmall(n, nr, nor);
  }

  lemma Multiples(n: nat, nr: int, nor: int)
    requires NearRound(n, nr, nor)
    ensures nor == Min(16 / nr, 64 / n) && nr * nor >= 8
  {
  }

  lemma SplitOfSmall(n: nat, nr: int, nor: int)
    requires 1 <= nr <= 16 && 1 <= n < NF_MAX && nor == Min(16 / nr, 64 / n) && nr * nor >= 8
    ensures Refactored(nr, n, 16, 4) == Split(1, n * nor, nr * nor, nor)
  {
    hide Divisor;
    DivisorOfSmall(nr);
  }

  lemma NearestOf109(n: nat, nr: int, nor: int)
    requires NearRound(n, nr, nor)
    ensures Nearest109(n) == nr
  {
  }

  lemma Offer109(n: nat, nr: int, nor: int, merr: real, first: bool, err: real)
    requires NearRound(n, nr, nor)
    requires err * (nr as real * 109.0) == nr as real * 109.0 - n as real * 26.0
    requires 0.0 < merr && Abs(err) <= merr
    ensures Trial(FIN, FOUT_109, n, merr, first)
         == if nor > 1 && !first then None else Some(Choice(1, n * nor, nr * nor, n * nor, err))
  {
    hide Refactored, NearestNr, Error, Most, Least, Nearest109;
    Split109(n, nr, nor);
    NearestOf109(n, nr, nor);
    Limits109();
    NearestAt109(n);
    ErrorAt109(n, nr);
    Cancelled(Error(n, nr, FOUT_109 / FIN) - err, nr as real * 109.0);
  }

  lemma {:induction false} SameSearch109(lo: nat, hi: nat)
    requires 4 <= lo <= hi <= NF_MAX
    requires var s := SearchRounds(FIN, FOUT_109, 4, lo);
      forall n :: lo <= n < hi ==> Next(s, FIN, FOUT_109, n) == s
    ensures SearchRounds(FIN, FOUT_109, 4, hi) == SearchRounds(FIN, FOUT_109, 4, lo)
    decreases hi
  {
    hide Next;
    if lo < hi {
      SameSearch109(lo, hi - 1);
    }
  }

  /** The rounds from 18 to 37 change nothing: they are far, or would have to scale, or have a smaller divider. */
  lemma Middle109(s: Search, n: nat)
    requires s == Search(Some(Choice(1, 51, 12, 51, -3.0 / 218.0)), 3.0 / 218.0) && 17 < n < 38
    ensures Next(s, FIN, FOUT_109, n) == s
  {
    hide Trial;
    if n == 21 {
      Offer109(21, 5, 3, 3.0 / 218.0, false, -1.0 / 545.0);
    } else if n == 25 {
      Offer109(25, 6, 2, 3.0 / 218.0, false, 2.0 / 327.0);
    } else if n == 29 {
      Offer109(29, 7, 2, 3.0 / 218.0, false, 9.0 / 763.0);
    } else if n == 34 {
      Offer109(34, 8, 1, 3.0 / 218.0, false, -3.0 / 218.0);
    } else {
      Far109(n, false);
    }
  }

  /** 109 MHz from 26 MHz: rounds 42 and 63 are equally near, and the larger output divider is kept. */
  lemma OneHundredNine()
    ensures Chosen(FIN, FOUT_109) == Some(Choice(1, 63, 15, 63, -1.0 / 545.0))
  {
    hide Trial, Next;
    assert FirstRound(FIN, FOUT_109) == 4;
    var s0 := Search(None, TOLERANCE);
    assert SearchRounds(FIN, FOUT_109, 4, 4) == s0;
    forall n | 4 <= n < 17 ensures Next(s0, FIN, FOUT_109, n) == s0 {
      NoOffer(s0, n, 17);
    }
    SameSearch109(4, 17);
    var s1 := Search(Some(Choice(1, 51, 12, 51, -3.0 / 218.0)), 3.0 / 218.0);
    Better109(s0, s1, 17, 4, 3);
    forall n | 18 <= n < 38 ensures Next(s1, FIN, FOUT_109, n) == s1 {
      Middle109(s1, n);
    }
    SameSearch109(18, 38);
    var s2 := Search(Some(Choice(1, 38, 9, 38, -7.0 / 981.0)), 7.0 / 981.0);
    Better109(s1, s2, 38, 9, 1);
    forall n | 39 <= n < 42 ensures Next(s2, FIN, FOUT_109, n) == s2 {
      NoOffer(s2, n, 42);
    }
    SameSearch109(39, 42);
    var s3 := Search(Some(Choice(1, 42, 10, 42, -1.0 / 545.0)), 1.0 / 545.0);
    Better109(s2, s3, 42, 10, 1);
    forall n | 43 <= n < 63 ensures Next(s3, FIN, FOUT_109, n) == s3 {
      NoOffer(s3, n, 63);
    }
    SameSearch109(43, 63);
    var s4 := Search(Some(Choice(1, 63, 15, 63, -1.0 / 545.0)), 1.0 / 545.0);
    Better109(s3, s4, 63, 15, 1);
    assert SearchRounds(FIN, FOUT_109, 4, NF_MAX) == s4;
  }

  lemma NoOffer(s: Search, n: nat, below: nat)
    requires 4 <= n < below <= NF_MAX
    requires (s.merr == TOLERANCE && below == 17) || (s.merr == 7.0 / 981.0 && below == 42 && n > 38)
          || (s.merr == 1.0 / 545.0 && below == 63 && n > 42)
    ensures Next(s, FIN, FOUT_109, n) == s
  {
    hide Trial;
    Far109(n, s.best.None?);
  }

  lemma Better109(s: Search, next: Search, n: nat, nr: int, nor: int)
    requires (n, nr, nor) in {(17, 4, 3), (38, 9, 1), (42, 10, 1), (63, 15, 1)}
    requires next.best.Some? && next.best.value == Choice(1, n * nor, nr * nor, n * nor, 0.0 - next.merr)
    requires (0.0 - next.merr) * (nr as real * 109.0) == nr as real * 109.0 - n as real * 26.0
    requires 0.0 < next.merr <= s.merr && (nor == 1 || s.best.None?)
    requires s.best.None? || next.merr < s.merr * 0.999999 || nr * nor > s.best.value.od
    requires s.best.Some? ==> s.best.value.nr == 1
    ensures Next(s, FIN, FOUT_109, n) == next
  {
    hide Trial;
    Offer109(n, nr, nor, s.merr, s.best.None?, 0.0 - next.merr);
  }

  /** What the registers say for the dividers 1, 60 and 2. */
  lemma OutputAt()
    ensures Output(Register(0, 59, 1, 59, 0, 0), SYSCTRL_CLOCK_FREQ_IN0) == 780000000
  {
  }
}
