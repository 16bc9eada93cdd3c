/** The PLL divider search of sysctl.c, with doubles read as reals, and the registers it programs. */
module Pll {
  import opened Options

  const VCO_MIN := 350000000.0
  const VCO_MAX := 1750000000.0
  const REF_MIN := 13671900.0
  const REF_MAX := 1750000000.0
  const NR_MAX := 16
  const NF_MAX := 64
  const NO_MAX := 16
  const NB_MAX := 64
  /** `terr` */
  const TOLERANCE := 0.015625
  const INT_MAX := 0x7fff_ffff
  const UINT_MAX := 0xffff_ffff
  const SYSCTRL_CLOCK_FREQ_IN0 := 26000000

  function Abs(x: real): real {
    if x < 0.0 then -x else x
  }

  function Min(a: int, b: int): int {
    if a < b then a else b
  }

  /** Round half to even. */
  function Rint(x: real): (n: int)
    ensures x - 0.5 <= n as real <= x + 0.5
  {
    var f := x.Floor;
    var rest := x - f as real;
    if rest < 0.5 || (rest == 0.5 && f % 2 == 0) then f else f + 1
  }

  function Ceil(x: real): int {
    -(-x).Floor
  }

  /** A double kept in an `int`; the conversion saturates. */
  function ToInt(n: int): int {
    Min(n, INT_MAX)
  }

  type Positive = x: real | x > 0.0 witness 1.0

  // --------------------------------------------------------- splitting a ratio into dividers

  /** The largest divisor of `nr` that is at most `k`. */
  function Divisor(nr: int, k: int): (d: int)
    requires nr >= 1 && k >= 1
    ensures 1 <= d <= k && nr % d == 0
    ensures forall e :: d < e <= k ==> nr % e != 0
  {
    if k == 1 || nr % k == 0 then k else Divisor(nr, k - 1)
  }

  datatype Split = Split(nr: int, nf: int, od: int, scale: int)

  /** Feedback divider and output divider multiplied by `s`. */
  function Scaled(nr: int, nfi: int, s: int): Split {
    Split(nr, nfi * s, s, s)
  }

  /** A divisor `d` of `nr` moved to the output divider, then the feedback divider scaled by `nor`. */
  function Reduced(nr: int, nfi: int, d: int, nor: int): Split
    requires d >= 1
  {
    Split(nr / d, nfi * nor, d * nor, nor)
  }

  /** Ratio `nfi / nr` spread over the three dividers: a common factor becomes the output divider, or, if the
      oscillator would be slow, the feedback divider is scaled up. */
  function Refactored(nr: int, nfi: int, most: int, least: int): Split
    requires nr >= 1 && 1 <= nfi < NF_MAX && most >= 1
  {
    var cap := Min(most, NO_MAX);
    var d := Divisor(nr, cap);
    var nor := Min(cap / d, NF_MAX / nfi);
    if (d * nor < most / 2 || d * nor < least) && d * nor < NF_MAX / nfi then
      Scaled(nr, nfi, Min(Min(NF_MAX / nfi, NO_MAX), most))
    else
      Reduced(nr, nfi, d, nor)
  }

  /** The split has the ratio it was made from and fits the divider fields. */
  predicate Exact(s: Split, nr: int, nfi: int) {
    && s.nr >= 1 && 1 <= s.nf <= NF_MAX && 1 <= s.od <= NO_MAX && s.scale >= 1
    && s.nf * nr == nfi * (s.nr * s.od)
  }

  lemma RoomFor(nfi: int, s: int)
    requires 1 <= nfi < NF_MAX && 1 <= s <= NF_MAX / nfi
    ensures 1 <= nfi * s <= NF_MAX
  {
    assert nfi * s <= nfi * (NF_MAX / nfi);
  }

  lemma ScaledExact(nr: int, nfi: int, s: int)
    requires nr >= 1 && 1 <= nfi < NF_MAX && 1 <= s <= NF_MAX / nfi && s <= NO_MAX
    ensures Exact(Scaled(nr, nfi, s), nr, nfi)
  {
    RoomFor(nfi, s);
    assert (nfi * s) * nr == nfi * (nr * s);
  }

  lemma DivideExactly(n: int, d: int)
    requires d >= 1 && n >= 1 && n % d == 0
    ensures n / d * d == n && n / d >= 1
  {
  }

  lemma Regroup(nfi: int, q: int, d: int, nor: int)
    ensures (nfi * nor) * (q * d) == nfi * (q * (d * nor))
  {
  }

  lemma ProductBound(d: int, nor: int, cap: int)
    requires 1 <= d <= cap && 1 <= nor <= cap / d
    ensures 1 <= d * nor <= cap
  {
    assert d * nor <= d * (cap / d) <= cap;
  }

  lemma ReducedExact(nr: int, nfi: int, cap: int, d: int, nor: int)
    requires nr >= 1 && 1 <= nfi < NF_MAX && 1 <= d <= cap <= NO_MAX && nr % d == 0
    requires 1 <= nor <= NF_MAX / nfi && nor <= cap / d
    ensures Exact(Reduced(nr, nfi, d, nor), nr, nfi)
  {
    RoomFor(nfi, nor);
    DivideExactly(nr, d);
    ProductBound(d, nor, cap);
    var q := nr / d;
    Regroup(nfi, q, d, nor);
    assert nfi * nor * nr == (nfi * nor) * (q * d);
  }

  lemma AtLeastOne(a: int, b: int)
    requires 1 <= b <= a
    ensures a / b >= 1
  {
  }

  /** Both ways of splitting keep the ratio exactly. */
  lemma SplitExact(nr: int, nfi: int, most: int, least: int)
    requires nr >= 1 && 1 <= nfi < NF_MAX && most >= 1
    ensures Exact(Refactored(nr, nfi, most, least), nr, nfi)
  {
    hide Scaled, Reduced, Exact;
    var cap := Min(most, NO_MAX);
    var d := Divisor(nr, cap);
    AtLeastOne(cap, d);
    AtLeastOne(NF_MAX, nfi);
    ReducedExact(nr, nfi, cap, d, Min(cap / d, NF_MAX / nfi));
    ScaledExact(nr, nfi, Min(Min(NF_MAX / nfi, NO_MAX), most));
  }

  // ------------------------------------------------------------------ the search

  datatype Choice = Choice(nr: int, nf: int, od: int, nb: int, err: real)

  /** `nr` for a given `nfi`, when the ratio to reach is `val`. */
  function NearestNr(nfi: nat, val: Positive): (nr: int)
    ensures nr >= 0 && (nfi == 0 ==> nr == 0)
  {
    ToInt(Rint(nfi as real / val))
  }

  /** Relative error of the ratio `nfi / nr`. */
  function Error(nfi: nat, nr: int, val: Positive): real
    requires nr >= 1
  {
    1.0 - (nfi as real / nr as real) / val
  }

  predicate Near(err: real, merr: real) {
    Abs(err) < merr * 1.000001 || Abs(err) < 0.0000000000000001
  }

  /** `fvco` */
  function Vco(fin: real, nr: int, nf: int): real
    requires nr >= 1
  {
    fin / nr as real * nf as real
  }

  /** Oscillator and reference frequency are in range and the reference divider fits its field. */
  predicate InRange(fin: Positive, nr: int, nf: int)
    requires nr >= 1
  {
    && VCO_MIN <= Vco(fin, nr, nf) <= VCO_MAX
    && fin / nr as real >= REF_MIN
    && nr <= NR_MAX
  }

  function Most(fout: Positive): int {
    (VCO_MAX / fout).Floor
  }

  function Least(fout: Positive): int {
    Ceil(VCO_MIN / fout)
  }

  /** The dividers for one `nfi`, given the best error so far; none for an output faster than the oscillator. Once
      something has been found, scaled-up feedback dividers are left to later rounds. */
  function Trial(fin: Positive, fout: Positive, nfi: nat, merr: real, first: bool): (c: Option<Choice>)
    requires nfi < NF_MAX
  {
    var nr := NearestNr(nfi, fout / fin);
    if nr == 0 || fin / nr as real > REF_MAX || !Near(Error(nfi, nr, fout / fin), merr) || Most(fout) < 1 then None
    else
      var s := Refactored(nr, nfi, Most(fout), Least(fout));
      SplitExact(nr, nfi, Most(fout), Least(fout));
      if (s.scale > 1 && !first) || !InRange(fin, s.nr, s.nf) then None
      else Some(Choice(s.nr, s.nf, s.od, s.nf, Error(nfi, nr, fout / fin)))
  }

  /** The variables `found` and `x_...`, and `merr`. */
  datatype Search = Search(best: Option<Choice>, merr: real)

  /** Whether a trial replaces the best one: a smaller error or a larger output divider, and no larger reference
      divider. */
  predicate Replaces(s: Search, c: Choice) {
    || s.best.None?
    || ((Abs(c.err) < s.merr * 0.999999 || c.od > s.best.value.od) && c.nr <= s.best.value.nr)
  }

  function Next(s: Search, fin: Positive, fout: Positive, nfi: nat): Search
    requires nfi < NF_MAX
  {
    var c := Trial(fin, fout, nfi, s.merr, s.best.None?);
    if c.Some? && Replaces(s, c.value) then Search(c, Abs(c.value.err)) else s
  }

  /** The search after the rounds `lo` to `hi - 1`. */
  function SearchRounds(fin: Positive, fout: Positive, lo: nat, hi: nat): Search
    requires hi <= NF_MAX
  {
    if hi <= lo then Search(None, TOLERANCE)
    else Next(SearchRounds(fin, fout, lo, hi - 1), fin, fout, hi - 1)
  }

  function FirstRound(fin: Positive, fout: Positive): (n: nat) {
    ToInt((fout / fin).Floor)
  }

  /** The dividers for `fout` from `fin`, unless no error is small enough. */
  function Chosen(fin: Positive, fout: Positive): Option<Choice>
  {
    var best := SearchRounds(fin, fout, FirstRound(fin, fout), NF_MAX).best;
    if best.Some? && Abs(best.value.err) < TOLERANCE * 0.999999 then best else None
  }

  lemma TooLarge(nr: int, no: int)
    requires nr >= 1 && no >= 1 && nr / no < 1
    ensures nr % no != 0
  {
  }

  /** The remainder as the processor computes it: by zero it is the dividend (division operations of the RISC-V
      M extension). */
  function Remainder(a: int, b: int): int
    requires a >= 0 && b >= 0
  {
    if b == 0 then a else a % b
  }

  /** For an output faster than the oscillator the divisor comes down to 0, and the remainder by it says that nothing
      divides. */
  method Refactor(nr: int, nfi: int, fout: Positive)
    returns (divides: bool, nrx: int, nfx: int, no: int, scale: int)
    requires nr >= 1 && 1 <= nfi < NF_MAX
    ensures divides <==> Most(fout) >= 1
    ensures divides ==> Split(nrx, nfx, no, scale) == Refactored(nr, nfi, Most(fout), Least(fout))
  {
    hide Divisor, Most, Least;
    MostSign(fout);
    nrx, nfx, scale := nr, nfi, 0;
    var most := Most(fout);
    no := if most > NO_MAX then NO_MAX else most;
    ghost var cap := no;
    while no > 1
      invariant 0 <= no <= cap && (no == 0 ==> cap == 0) && (no > 0 ==> Divisor(nr, cap) == Divisor(nr, no))
    {
      DivisorStep(nr, no);
      if nr / no >= 1 {
        if nr % no == 0 {
          break;
        }
      } else {
        TooLarge(nr, no);
      }
      no := no - 1;
    }
    if no > 0 {
      DivisorStep(nr, no);
    }
    divides := Remainder(nr, no) == 0;
    if !divides {
      return;
    }
    var nor := (if most > NO_MAX then NO_MAX else most) / no;
    var nore := NF_MAX / nfi;
    if nor > nore {
      nor := nore;
    }
    var noe := Least(fout);
    if (no * nor < most / 2 || no * nor < noe) && no * nor < NF_MAX / nfi {
      no := NF_MAX / nfi;
      if no > NO_MAX {
        no := NO_MAX;
      }
      if no > most {
        no := most;
      }
      nfx := nfx * no;
      scale := no;
    } else {
      nrx := nrx / no;
      nfx := nfx * nor;
      no := no * nor;
      scale := nor;
    }
  }

  lemma MostSign(fout: Positive)
    ensures Most(fout) >= 0
  {
    assert VCO_MAX / fout >= 0.0;
  }

  lemma DivisorStep(nr: int, k: int)
    requires nr >= 1 && k >= 1
    ensures Divisor(nr, k) == if k == 1 || nr % k == 0 then k else Divisor(nr, k - 1)
  {
  }

  /** No request is excluded: above 1.75 GHz the search finds nothing. */
  method FindDividers(fin: Positive, fout: Positive) returns (found: bool, nr: int, nf: int, od: int, nb: int)
    ensures var c := Chosen(fin, fout);
      found == c.Some? && (found ==> nr == c.value.nr && nf == c.value.nf && od == c.value.od && nb == c.value.nb)
  {
    hide Refactored, Most, Least, Error, Near, InRange, SearchRounds;
    var val := fout / fin;
    var merr, firstx := TOLERANCE, true;
    var xNo, xNrx, xNb, xNfx, xErr := 0, 0, 0, 0, 0.0;
    found := false;
    var nfi: nat := FirstRound(fin, fout);
    ghost var lo := nfi;
    nr, nf, od, nb := 0, 0, 0, 0;
    SearchStart(fin, fout, lo, Min(lo, NF_MAX));
    while nfi < NF_MAX
      invariant firstx == !found && (firstx ==> xNo == 0)
      invariant lo <= nfi && (lo < nfi ==> nfi <= NF_MAX)
      invariant SearchRounds(fin, fout, lo, Min(nfi, NF_MAX))
             == Search(if found then Some(Choice(xNrx, xNfx, xNo, xNb, xErr)) else None, merr)
    {
      SearchStep(fin, fout, lo, nfi);
      var r := NearestNr(nfi, val);
      nfi := nfi + 1;
      if r == 0 || r < 1 || fin / r as real > REF_MAX {
        continue;
      }
      var err := Error(nfi - 1, r, val);
      if Near(err, merr) {
        var divides, nrx, nfx, no, scale := Refactor(r, nfi - 1, fout);
        if !divides {
          continue;
        }
        SplitExact(r, nfi - 1, Most(fout), Least(fout));
        if no > NO_MAX || (scale > 1 && !firstx) {
          continue;
        }
        var b := if nfx < 1 then 1 else nfx;
        if b > NB_MAX || !InRange(fin, nrx, nfx) {
          continue;
        }
        if !(Abs(err) < merr * 0.999999 || no > xNo) {
          continue;
        }
        if !firstx && nrx > xNrx {
          continue;
        }
        found, xNo, xNrx, xNfx, xNb, xErr := true, no, nrx, nfx, b, err;
        firstx := false;
        merr := Abs(err);
      }
    }
    if found {
      nr, nf, od, nb := xNrx, xNfx, xNo, xNb;
      found := Abs(xErr) < TOLERANCE * 0.999999;
    }
  }

  lemma SearchStart(fin: Positive, fout: Positive, lo: nat, hi: nat)
    requires hi <= lo && hi <= NF_MAX
    ensures SearchRounds(fin, fout, lo, hi) == Search(None, TOLERANCE)
  {
  }

  lemma SearchStep(fin: Positive, fout: Positive, lo: nat, hi: nat)
    requires lo <= hi < NF_MAX
    ensures SearchRounds(fin, fout, lo, hi + 1) == Next(SearchRounds(fin, fout, lo, hi), fin, fout, hi)
  {
  }

  // ------------------------------------------------------------- what the search promises

  /** FOUT as `sysctl_pll_get_freq` computes it. */
  function Fout(fin: real, nr: int, nf: int, od: int): real
    requires nr >= 1 && od >= 1
  {
    Vco(fin, nr, nf) / od as real
  }

  /** Everything the registers and the hardware demand of a choice. */
  predicate Programmable(fin: Positive, c: Choice) {
    && 1 <= c.nr <= NR_MAX && 1 <= c.nf <= NF_MAX && 1 <= c.od <= NO_MAX && c.nb == c.nf <= NB_MAX
    && VCO_MIN <= Vco(fin, c.nr, c.nf) <= VCO_MAX
    && fin / c.nr as real >= REF_MIN
  }

  lemma RatioOfReals(a: real, b: real, c: real, d: real)
    requires b > 0.0 && d > 0.0 && a * d == c * b
    ensures a / b == c / d
  {
    assert (a / b) * b == a && (c / d) * d == c;
    assert ((a / b) - (c / d)) * (b * d) == 0.0;
  }

  lemma ProductOfInts(a: int, b: int)
    ensures (a * b) as real == a as real * b as real
  {
  }

  lemma SplitRatio(s: Split, nr: int, nfi: int)
    requires nr >= 1 && nfi >= 1 && Exact(s, nr, nfi)
    ensures nfi as real / nr as real == s.nf as real / (s.nr as real * s.od as real)
  {
    ProductOfInts(s.nf, nr);
    ProductOfInts(s.nr, s.od);
    ProductOfInts(nfi, s.nr * s.od);
    assert s.nr as real * s.od as real > 0.0;
    RatioOfReals(nfi as real, nr as real, s.nf as real, s.nr as real * s.od as real);
  }

  lemma FoutIsRatio(fin: Positive, a: real, b: real, c: real)
    requires a > 0.0 && c > 0.0
    ensures fin / a * b / c == fin * (b / (a * c))
  {
    assert a * c > 0.0;
    var x := fin / a;
    assert x * a == fin;
    var y := b / (a * c);
    assert y * (a * c) == b;
    var z := x * b / c;
    assert z * c == x * b;
    assert (fin * y) * c == x * b;
    assert (z - fin * y) * c == 0.0;
  }

  lemma ErrorOfRatio(fin: Positive, fout: Positive, q: real, f: real)
    requires f == fin * q
    ensures q / (fout / fin) == f / fout
  {
    var v := fout / fin;
    assert v * fin == fout;
    var a := q / v;
    assert a * v == q;
    var b := f / fout;
    assert b * fout == fin * q;
    assert (a - b) * fout == 0.0;
  }

  lemma FoutOfSplit(fin: Positive, s: Split, nr: int, nfi: nat)
    requires nr >= 1 && nfi >= 1 && Exact(s, nr, nfi)
    ensures Fout(fin, s.nr, s.nf, s.od) == fin * (nfi as real / nr as real)
  {
    SplitRatio(s, nr, nfi);
    FoutIsRatio(fin, s.nr as real, s.nf as real, s.od as real);
  }

  lemma OutputError(fin: Positive, fout: Positive, s: Split, nr: int, nfi: nat)
    requires nr >= 1 && nfi >= 1 && Exact(s, nr, nfi)
    ensures Error(nfi, nr, fout / fin) == 1.0 - Fout(fin, s.nr, s.nf, s.od) / fout
  {
    hide Fout;
    FoutOfSplit(fin, s, nr, nfi);
    ErrorOfRatio(fin, fout, nfi as real / nr as real, Fout(fin, s.nr, s.nf, s.od));
  }

  lemma MostPositive(fout: Positive)
    ensures Most(fout) >= 1 <==> fout <= VCO_MAX
  {
    var q := VCO_MAX / fout;
    assert q * fout == VCO_MAX;
    assert (q - 1.0) * fout == VCO_MAX - fout;
  }

  /** What a trial offers can be programmed, and its error is exactly the relative error of the output. */
  lemma TrialSound(fin: Positive, fout: Positive, nfi: nat, merr: real, first: bool)
    requires nfi < NF_MAX
    requires Trial(fin, fout, nfi, merr, first).Some?
    ensures var c := Trial(fin, fout, nfi, merr, first).value;
      Programmable(fin, c) && c.err == 1.0 - Fout(fin, c.nr, c.nf, c.od) / fout && fout <= VCO_MAX
  {
    hide Refactored, NearestNr, Most, Least, Near, Error, Fout;
    MostPositive(fout);
    var nr := NearestNr(nfi, fout / fin);
    SplitExact(nr, nfi, Most(fout), Least(fout));
    OutputError(fin, fout, Refactored(nr, nfi, Most(fout), Least(fout)), nr, nfi);
  }

  lemma {:induction false} SearchSound(fin: Positive, fout: Positive, lo: nat, hi: nat)
    requires hi <= NF_MAX
    ensures var s := SearchRounds(fin, fout, lo, hi);
      s.best.Some? ==> var c := s.best.value;
        && Programmable(fin, c) && c.err == 1.0 - Fout(fin, c.nr, c.nf, c.od) / fout && s.merr == Abs(c.err)
        && fout <= VCO_MAX
    decreases hi
  {
    hide Trial, Programmable, Fout, Most;
    if lo < hi {
      SearchSound(fin, fout, lo, hi - 1);
      var s := SearchRounds(fin, fout, lo, hi - 1);
      if Trial(fin, fout, hi - 1, s.merr, s.best.None?).Some? {
        TrialSound(fin, fout, hi - 1, s.merr, s.best.None?);
      }
    }
  }

  lemma WithinTolerance(x: real, fout: Positive)
    requires Abs(1.0 - x / fout) < TOLERANCE
    ensures Abs(x - fout) < fout / 64.0
  {
    var q := x / fout;
    assert q * fout == x;
    assert (1.0 - q) * fout == fout - x;
    assert Abs(1.0 - q) * fout < TOLERANCE * fout;
    assert q <= 1.0 ==> 0.0 <= (1.0 - q) * fout;
    assert q > 1.0 ==> 0.0 <= (q - 1.0) * fout && (q - 1.0) * fout == x - fout;
  }

  /** If the search succeeds, the dividers fit their fields, oscillator and reference are in range, and the output is
      within a 64th of the request, which is not above 1.75 GHz. */
  lemma ChosenSound(fin: Positive, fout: Positive)
    ensures var r := Chosen(fin, fout);
      r.Some? ==>
        && Programmable(fin, r.value) && Abs(Fout(fin, r.value.nr, r.value.nf, r.value.od) - fout) < fout / 64.0
        && fout <= VCO_MAX
  {
    hide SearchRounds, Fout, Most;
    SearchSound(fin, fout, FirstRound(fin, fout), NF_MAX);
    var r := Chosen(fin, fout);
    if r.Some? {
      WithinTolerance(Fout(fin, r.value.nr, r.value.nf, r.value.od), fout);
    }
  }

  /** Round `nfi` offers dividers when nothing has been found yet. */
  predicate Feasible(fin: Positive, fout: Positive, nfi: nat)
    requires nfi < NF_MAX
  {
    Trial(fin, fout, nfi, TOLERANCE, true).Some?
  }

  /** Something is found exactly if some round is feasible. */
  lemma {:induction false} FoundIffFeasible(fin: Positive, fout: Positive, lo: nat, hi: nat)
    requires hi <= NF_MAX
    ensures SearchRounds(fin, fout, lo, hi).best.Some? <==> exists n: nat :: lo <= n < hi && Feasible(fin, fout, n)
    ensures SearchRounds(fin, fout, lo, hi).best.None? ==> SearchRounds(fin, fout, lo, hi).merr == TOLERANCE
    decreases hi
  {
    hide Trial, Most;
    if lo < hi {
      FoundIffFeasible(fin, fout, lo, hi - 1);
      if Feasible(fin, fout, hi - 1) && SearchRounds(fin, fout, lo, hi - 1).best.None? {
        assert lo <= hi - 1 < hi && Feasible(fin, fout, hi - 1);
      }
    }
  }

  /** The first feasible round. */
  predicate FirstFeasible(fin: Positive, fout: Positive, lo: nat, n: nat)
  {
    lo <= n < NF_MAX && Feasible(fin, fout, n) && forall k: nat :: lo <= k < n ==> !Feasible(fin, fout, k)
  }

  /** Later rounds never raise the reference divider, and can spoil the error only by a millionth each. */
  lemma {:induction false} ErrorKept(fin: Positive, fout: Positive, lo: nat, n: nat, hi: nat)
    requires FirstFeasible(fin, fout, lo, n) && n < hi <= NF_MAX
    ensures var s := SearchRounds(fin, fout, lo, hi); var c := Trial(fin, fout, n, TOLERANCE, true).value;
      && s.best.Some? && s.best.value.nr <= c.nr && s.merr == Abs(s.best.value.err)
      && s.merr <= Abs(c.err) + 0.000000016 * (hi - n) as real
    decreases hi
  {
    hide Most, Refactored, NearestNr, Error, InRange;
    FoundIffFeasible(fin, fout, lo, hi - 1);
    if n < hi - 1 {
      ErrorKept(fin, fout, lo, n, hi - 1);
      assert Abs(Trial(fin, fout, n, TOLERANCE, true).value.err) < 0.0157;
    }
  }

  /** The search fails if no round is feasible, and succeeds if the first feasible one is within 1.5623 percent; then
      its reference divider is at most that of the first feasible round. */
  lemma ChosenComplete(fin: Positive, fout: Positive)
    ensures (forall n: nat :: FirstRound(fin, fout) <= n < NF_MAX ==> !Feasible(fin, fout, n)) ==>
      Chosen(fin, fout).None?
    ensures forall n: nat :: (
      FirstFeasible(fin, fout, FirstRound(fin, fout), n)
      && Abs(Trial(fin, fout, n, TOLERANCE, true).value.err) <= 0.015623 ==>
        Chosen(fin, fout).Some? && Chosen(fin, fout).value.nr <= Trial(fin, fout, n, TOLERANCE, true).value.nr)
  {
    hide Most, Trial, SearchRounds;
    var lo := FirstRound(fin, fout);
    FoundIffFeasible(fin, fout, lo, NF_MAX);
    forall n: nat | FirstFeasible(fin, fout, lo, n) && Abs(Trial(fin, fout, n, TOLERANCE, true).value.err) <= 0.015623
      ensures Chosen(fin, fout).Some? && Chosen(fin, fout).value.nr <= Trial(fin, fout, n, TOLERANCE, true).value.nr
    {
      ErrorKept(fin, fout, lo, n, NF_MAX);
    }
  }

  // ------------------------------------------------------------------ registers

  /** `clkr` and `clkod` are 4 bits wide, `clkf` and `bwadj` 6; `select` is `pll_ckin_sel2`, `rest` all other bits. */
  datatype Register = Register(clkr: nat, clkf: nat, clkod: nat, bwadj: nat, select: nat, rest: nat)

  predicate Fits(r: Register) {
    r.clkr < 16 && r.clkf < 64 && r.clkod < 16 && r.bwadj < 64 && r.select < 4
  }

  /** A double kept in a `uint32_t`; the conversion saturates. */
  function ToUInt(x: real): nat
    requires x >= 0.0
  {
    Min(x.Floor, UINT_MAX)
  }

  function Output(r: Register, freqIn: nat): (f: nat)
    ensures f <= UINT_MAX
  {
    FoutSign(freqIn as real, r.clkr + 1, r.clkf + 1, r.clkod + 1);
    ToUInt(Fout(freqIn as real, r.clkr + 1, r.clkf + 1, r.clkod + 1))
  }

  lemma FoutSign(fin: real, nr: int, nf: int, od: int)
    requires fin >= 0.0 && nr >= 1 && nf >= 1 && od >= 1
    ensures Fout(fin, nr, nf, od) >= 0.0
    ensures fin == 0.0 ==> Fout(fin, nr, nf, od) == 0.0
  {
    var x := fin / nr as real;
    assert x >= 0.0 && (fin == 0.0 ==> x == 0.0);
    assert x * nf as real >= 0.0 && (x == 0.0 ==> x * nf as real == 0.0);
  }

  /** The dividers in the register meet every demand of the hardware. */
  predicate WellProgrammed(r: Register, freqIn: nat)
    requires freqIn > 0
  {
    Programmable(freqIn as real, Choice(r.clkr + 1, r.clkf + 1, r.clkod + 1, r.bwadj + 1, 0.0))
  }

  lemma QuotientBound(v: real, d: real)
    requires v >= VCO_MIN && 0.0 < d <= 16.0
    ensures v / d >= 21875000.0
  {
    var q := v / d;
    assert q * d == v;
    assert (q - 21875000.0) * d == v - 21875000.0 * d >= 0.0;
  }

  lemma FastEnough(fin: Positive, c: Choice)
    requires Programmable(fin, c)
    ensures Fout(fin, c.nr, c.nf, c.od) >= 21875000.0
  {
    hide Vco;
    QuotientBound(Vco(fin, c.nr, c.nf), c.od as real);
  }

  lemma RoundedDown(x: real, freq: nat)
    requires x >= 21875000.0 && 1 <= freq <= 1750000000 && Abs(x - freq as real) < freq as real / 64.0
    ensures 21875000 <= ToUInt(x) && Abs(ToUInt(x) as real - freq as real) < freq as real / 64.0 + 1.0
  {
  }

  /** The dividers for `freq` from `freqIn`, if there is an input. With the request 0 every error is infinite or
      undefined, and nothing is found. */
  function Dividers(freqIn: nat, freq: nat): Option<Choice>
  {
    if freqIn == 0 || freq == 0 then None else Chosen(freqIn as real, freq as real)
  }

  /** A register with the dividers of a choice. */
  function Set(r: Register, nr: int, nf: int, od: int, nb: int): Register
    requires nr >= 1 && nf >= 1 && od >= 1 && nb >= 1
  {
    r.(clkr := nr - 1, clkf := nf - 1, clkod := od - 1, bwadj := nb - 1)
  }

  /** Reading the frequency back after programming gives the request up to a 64th and the rounding. */
  lemma ReadBack(r: Register, freqIn: nat, freq: nat)
    requires Dividers(freqIn, freq).Some? && Fits(r)
    ensures var c := Dividers(freqIn, freq).value;
      && c.nr >= 1 && c.nf >= 1 && c.od >= 1 && c.nb >= 1
      && var r' := Set(r, c.nr, c.nf, c.od, c.nb);
      && Fits(r') && WellProgrammed(r', freqIn)
      && 21875000 <= Output(r', freqIn)
      && Abs(Output(r', freqIn) as real - freq as real) < freq as real / 64.0 + 1.0
  {
    hide Chosen, Fout, Most, ToUInt;
    ChosenSound(freqIn as real, freq as real);
    var c := Chosen(freqIn as real, freq as real).value;
    FastEnough(freqIn as real, c);
    RoundedDown(Fout(freqIn as real, c.nr, c.nf, c.od), freq);
  }

  class Sysctl {
    var pll0: Register
    var pll1: Register
    var pll2: Register

    ghost predicate Valid()
      reads this
    {
      Fits(pll0) && Fits(pll1) && Fits(pll2)
    }

    /** Input frequency of a clock source that a PLL may use; 0 if it is not one. */
    function SourceFreq(source: nat): nat
      reads this
    {
      if source == 0 then SYSCTRL_CLOCK_FREQ_IN0
      else if source == 1 then Output(pll0, SYSCTRL_CLOCK_FREQ_IN0)
      else if source == 2 then Output(pll1, SYSCTRL_CLOCK_FREQ_IN0)
      else 0
    }

    /** Input frequency for a request; 0 if the PLL or the source does not exist or they do not go together. */
    function InputFreq(pll: nat, source: nat): nat
      reads this
    {
      if (pll < 2 && source == 0) || pll == 2 then SourceFreq(source) else 0
    }

    function Reg(pll: nat): Register
      requires pll < 3
      reads this
    {
      if pll == 0 then pll0 else if pll == 1 then pll1 else pll2
    }

    method PllGetFreq(pll: nat) returns (f: nat)
      ensures f == if pll >= 3 then 0 else Output(Reg(pll), SourceFreq(if pll == 2 then pll2.select else 0))
    {
      if pll >= 3 {
        return 0;
      }
      var r := if pll == 0 then pll0 else if pll == 1 then pll1 else pll2;
      var freqIn := SYSCTRL_CLOCK_FREQ_IN0;
      if pll == 2 {
        OutputOfNothing(pll2);
        if pll2.select >= 3 {
          return 0;
        }
        freqIn := SourceFreq(pll2.select);
      }
      f := Output(r, freqIn);
    }

    /** Either nothing changes and 0 is returned, or the register of this PLL alone is set to dividers that the hardware
        accepts, and the frequency then read back is the request up to a 64th. */
    method PllSourceSetFreq(pll: nat, source: nat, freq: nat) returns (r: nat)
      requires Valid()
      modifies this
      ensures Valid()
      ensures r == 0 ==> unchanged(this)
      ensures r != 0 ==>
        && pll < 3 && old(InputFreq(pll, source)) > 0
        && WellProgrammed(Reg(pll), old(InputFreq(pll, source)))
        && r == Output(Reg(pll), old(InputFreq(pll, source)))
        && Abs(r as real - freq as real) < freq as real / 64.0 + 1.0
        && Reg(pll).rest == old(Reg(pll).rest)
        && Reg(pll).select == if pll == 2 then source else old(Reg(pll).select)
      ensures forall p: nat :: p < 3 && p != pll ==> Reg(p) == old(Reg(p))
      ensures r != 0 <==> pll < 3 && Dividers(old(InputFreq(pll, source)), freq).Some?
    {
      hide Chosen, Output, WellProgrammed, Most, Abs;
      if pll >= 3 || source >= 5 {
        return 0;
      }
      var freqIn := 0;
      if pll < 2 {
        if source != 0 {
          return 0;
        }
        freqIn := SourceFreq(0);
      } else if source < 3 {
        freqIn := SourceFreq(source);
      }
      if freqIn == 0 || freq == 0 {
        return 0;
      }
      var found, nr, nf, od, nb := FindDividers(freqIn as real, freq as real);
      if !found {
        return 0;
      }
      ReadBack(if pll == 2 then pll2.(select := source) else Reg(pll), freqIn, freq);
      if pll == 0 {
        pll0 := Set(pll0, nr, nf, od, nb);
      } else if pll == 1 {
        pll1 := Set(pll1, nr, nf, od, nb);
      } else {
        pll2 := Set(pll2.(select := source), nr, nf, od, nb);
      }
      r := PllGetFreq(pll);
    }
  }

  lemma OutputOfNothing(r: Register)
    ensures Output(r, 0) == 0
  {
    FoutSign(0.0, r.clkr + 1, r.clkf + 1, r.clkod + 1);
  }
}
