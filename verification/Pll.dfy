/**
  The PLL parameter search of sdk/lib/drivers/sysctl.c, over exact reals. rint is any integer-valued function:
  nothing here depends on how it rounds.
 */
module Pll {
  import opened Bytes

  const VCO_MIN := 350000000.0
  const VCO_MAX := 1750000000.0
  const REF_MIN := 13671900.0
  const REF_MAX := 1750000000.0
  const NR_MAX := 16
  const NF_MAX := 64
  const NO_MAX := 16
  /** The largest relative error allowed: 0.5 / (NF_MAX / 2). */
  const TERR := 1.0 / 64.0
  /** Errors that differ by less than this part of themselves count as equal. */
  const SLACK := 0.000001

  /** The dividers: reference, feedback, output, and the bandwidth adjustment. */
  datatype Setting = Setting(nr: int, nf: int, od: int, nb: int)

  /** FOUT = FIN / NR * NF / OD. */
  function Output(fin: real, s: Setting): real
    requires s.nr > 0 && s.od > 0
  {
    fin / s.nr as real * s.nf as real / s.od as real
  }

  function Abs(x: real): real {
    if x < 0.0 then -x else x
  }

  /** What the hardware asks for: every divider in its range, and the VCO and reference frequencies in theirs. */
  predicate InRanges(fin: real, s: Setting) {
    && 1 <= s.nr <= 16 && 1 <= s.nf <= 64 && 1 <= s.od <= 16 && s.nb == s.nf
    && 350000000.0 <= fin / s.nr as real * s.nf as real <= 1750000000.0
    && 13671900.0 <= fin / s.nr as real <= 1750000000.0
  }

  // --- one step of the search -------------------------------------------------------------------------------

  /** The largest divisor of nr that is at most limit. */
  function Divisor(nr: nat, limit: nat): (d: nat)
    requires nr >= 1 && limit >= 1
    ensures 1 <= d <= limit && nr % d == 0
    ensures forall k :: d < k <= limit ==> nr % k != 0
  {
    if nr % limit == 0 then limit else Divisor(nr, limit - 1)
  }

  function Ceil(x: real): int {
    -((-x).Floor)
  }

  /** The most output divider the VCO range allows, and the least. */
  function MostDivider(freq: nat): (r: nat)
    requires 0 < freq <= 1750000000
    ensures r >= 1
  {
    OneFits(VCO_MAX, freq as real);
    (VCO_MAX / freq as real).Floor
  }

  lemma OneFits(x: real, y: real)
    requires x >= y > 0.0
    ensures x / y >= 1.0
  {
  }

  function LeastDivider(freq: nat): int
    requires freq > 0
  {
    Ceil(VCO_MIN / freq as real)
  }

  /** The whole output divider, on both sides. */
  function Whole(nr: nat, nfi: nat, most: nat): Setting
    requires 1 <= nfi < NF_MAX
  {
    var no := Min(Min(NF_MAX / nfi, NO_MAX), most);
    Setting(nr, nfi * no, no, nfi * no)
  }

  /** A common factor d of nr and the output divider cancelled, and the rest of it on both sides. */
  function Cancelled(nr: nat, nfi: nat, d: nat, nor: nat): Setting
    requires d >= 1
  {
    Setting(nr / d, nfi * nor, d * nor, nfi * nor)
  }

  /** How much of the output divider is left after d, with nf in its range. */
  function Rest(nfi: nat, d: nat, limit: nat): nat
    requires d >= 1 && 1 <= nfi < NF_MAX
  {
    Min(limit / d, NF_MAX / nfi)
  }

  /** Multiplies both sides of nfi / nr up, so that the VCO runs fast. */
  function Scaled(nr: nat, nfi: nat, most: nat, least: int): Setting
    requires nr >= 1 && 1 <= nfi < NF_MAX && most >= 1
  {
    var limit := Min(most, NO_MAX);
    var d := Divisor(nr, limit);
    var nor := Rest(nfi, d, limit);
    if (d * nor < most / 2 || d * nor < least) && d * nor < NF_MAX / nfi then Whole(nr, nfi, most)
    else Cancelled(nr, nfi, d, nor)
  }

  /** Scaling keeps the ratio nfi / nr, and stays in the ranges of NF and OD. */
  predicate ScaledWell(nr: nat, nfi: nat, most: nat, s: Setting) {
    && s.nf * nr == nfi * (s.nr * s.od)
    && 1 <= s.nr <= nr && 1 <= s.nf <= NF_MAX && 1 <= s.od <= NO_MAX && s.od <= most && s.nb == s.nf
  }

  lemma QuotientProduct(a: nat, b: nat, most: nat)
    requires b >= 1 && a <= most / b
    ensures a * b <= most
  {
    var q := most / b;
    assert q * b <= most;
    assert a * b <= q * b;
  }

  lemma ProductPositive(a: nat, b: nat)
    requires a >= 1 && b >= 1
    ensures a * b >= 1
  {
  }

  lemma QuotientPositive(a: nat, b: nat)
    requires a >= b >= 1
    ensures a / b >= 1
  {
  }

  lemma WholeIsWell(nr: nat, nfi: nat, most: nat)
    requires nr >= 1 && 1 <= nfi < NF_MAX && most >= 1
    ensures ScaledWell(nr, nfi, most, Whole(nr, nfi, most))
  {
    QuotientPositive(NF_MAX, nfi);
    var no := Min(Min(NF_MAX / nfi, NO_MAX), most);
    QuotientProduct(no, nfi, NF_MAX);
    ProductPositive(nfi, no);
    Swap(nfi, no, nr);
  }

  lemma Swap(a: nat, b: nat, c: nat)
    ensures a * b * c == a * (c * b)
  {
  }

  lemma CancelledIsWell(nr: nat, nfi: nat, d: nat, limit: nat, most: nat)
    requires nr >= 1 && 1 <= nfi < NF_MAX && 1 <= d <= limit && limit <= NO_MAX && limit <= most && nr % d == 0
    ensures ScaledWell(nr, nfi, most, Cancelled(nr, nfi, d, Rest(nfi, d, limit)))
  {
    var nor := Rest(nfi, d, limit);
    QuotientPositive(limit, d);
    QuotientPositive(NF_MAX, nfi);
    QuotientProduct(nor, d, limit);
    QuotientProduct(nor, nfi, NF_MAX);
    ProductPositive(nor, d);
    ProductPositive(nor, nfi);
    DivisorCancels(nr, d, nor, nfi);
  }

  lemma DivisorCancels(nr: nat, d: nat, nor: nat, nfi: nat)
    requires d >= 1 && nr >= 1 && nr % d == 0
    ensures nfi * nor * nr == nfi * (nr / d * (d * nor))
    ensures 1 <= nr / d <= nr
  {
    var q := nr / d;
    assert nr == q * d;
    assert q * (d * nor) == q * d * nor;
    Swap(nfi, nor, nr);
  }

  lemma ScalingKeepsRatio(nr: nat, nfi: nat, most: nat, least: int)
    requires nr >= 1 && 1 <= nfi < NF_MAX && most >= 1
    ensures ScaledWell(nr, nfi, most, Scaled(nr, nfi, most, least))
  {
    hide Whole, Cancelled, Rest, ScaledWell;
    var limit := Min(most, NO_MAX);
    WholeIsWell(nr, nfi, most);
    CancelledIsWell(nr, nfi, Divisor(nr, limit), limit, most);
  }

  /** The output dividers that the VCO range allows: up to most it stays in, and below least it cannot get in. */
  lemma DividersOfVco(freq: nat)
    requires 0 < freq <= 1750000000
    ensures MostDivider(freq) * freq <= 1750000000 < (MostDivider(freq) + 1) * freq
    ensures (LeastDivider(freq) - 1) * freq < 350000000 <= LeastDivider(freq) * freq
  {
    hide MostDivider, LeastDivider;
    var f := freq as real;
    MostIs(freq);
    LeastIs(freq);
    BetweenProducts(VCO_MAX, f, MostDivider(freq) as real);
    BetweenProducts(VCO_MIN, f, LeastDivider(freq) as real);
    assert ((MostDivider(freq) + 1) * freq) as real == (MostDivider(freq) as real + 1.0) * f;
    assert ((LeastDivider(freq) - 1) * freq) as real == (LeastDivider(freq) as real - 1.0) * f;
    assert (MostDivider(freq) * freq) as real == MostDivider(freq) as real * f;
    assert (LeastDivider(freq) * freq) as real == LeastDivider(freq) as real * f;
  }

  lemma MostIs(freq: nat)
    requires 0 < freq <= 1750000000
    ensures MostDivider(freq) as real <= VCO_MAX / freq as real < MostDivider(freq) as real + 1.0
  {
  }

  lemma LeastIs(freq: nat)
    requires freq > 0
    ensures LeastDivider(freq) as real - 1.0 < VCO_MIN / freq as real <= LeastDivider(freq) as real
  {
  }

  lemma Less(a: real, b: real, f: real)
    requires f > 0.0
    ensures a <= b ==> a * f <= b * f
    ensures a < b ==> a * f < b * f
  {
    if a < b {
      assert (b - a) * f > 0.0;
    }
  }

  lemma BetweenProducts(x: real, f: real, k: real)
    requires f > 0.0
    ensures k <= x / f ==> k * f <= x
    ensures x / f <= k ==> x <= k * f
    ensures x / f < k + 1.0 ==> x < (k + 1.0) * f
    ensures k - 1.0 < x / f ==> (k - 1.0) * f < x
  {
    Compare(x, f, x / f, k);
    Compare(x, f, x / f, k + 1.0);
    Compare(x, f, x / f, k - 1.0);
  }

  lemma Compare(x: real, f: real, q: real, k: real)
    requires f > 0.0 && q * f == x
    ensures k <= q ==> k * f <= x
    ensures k < q ==> k * f < x
    ensures q <= k ==> x <= k * f
    ensures q < k ==> x < k * f
  {
    Less(k, q, f);
    Less(q, k, f);
  }

  /** An output divider in its range that leaves the VCO and NF in theirs, with nf multiplied up k times. */
  predicate InReach(nfi: nat, most: nat, od: nat, k: nat) {
    od <= 16 && od <= most && nfi * k <= 64
  }

  /** d is the largest divisor of nr that can be an output divider, and d * k the largest multiple of it. */
  ghost predicate LargestShare(nr: nat, nfi: nat, most: nat, d: nat, k: nat) {
    && 1 <= d <= 16 && d <= most && nr % d == 0
    && (forall e: nat :: d < e <= 16 && e <= most ==> nr % e != 0)
    && InReach(nfi, most, d * k, k)
    && (forall m: nat :: InReach(nfi, most, d * m, m) ==> m <= k)
  }

  /** The output divider is the largest that can be had without a common factor. */
  ghost predicate LargestWhole(nfi: nat, most: nat, od: nat) {
    InReach(nfi, most, od, od) && forall m: nat :: InReach(nfi, most, m, m) ==> m <= od
  }

  lemma LargestQuotient(a: nat, b: nat, q: nat)
    requires b >= 1
    ensures q <= a / b <==> q * b <= a
  {
    var p := a / b;
    assert p * b <= a < (p + 1) * b;
    if q <= p {
      assert q * b <= p * b;
    } else {
      assert (p + 1) * b <= q * b;
    }
  }

  lemma RestIsLargest(nr: nat, nfi: nat, most: nat)
    requires nr >= 1 && 1 <= nfi < NF_MAX && most >= 1
    ensures var limit := Min(most, NO_MAX);
            var d := Divisor(nr, limit);
            LargestShare(nr, nfi, most, d, Rest(nfi, d, limit))
  {
    var limit := Min(most, NO_MAX);
    var d := Divisor(nr, limit);
    hide Divisor;
    var k := Rest(nfi, d, limit);
    forall m: nat
      ensures InReach(nfi, most, d * m, m) <==> m <= k
    {
      LargestQuotient(limit, d, m);
      LargestQuotient(NF_MAX, nfi, m);
      assert nfi * m == m * nfi && d * m == m * d;
    }
  }

  lemma WholeIsLargest(nr: nat, nfi: nat, most: nat)
    requires 1 <= nfi < NF_MAX
    ensures LargestWhole(nfi, most, Whole(nr, nfi, most).od)
  {
    forall m: nat
      ensures InReach(nfi, most, m, m) <==> m <= Whole(nr, nfi, most).od
    {
      LargestQuotient(NF_MAX, nfi, m);
      assert nfi * m == m * nfi;
    }
  }

  /**
    The VCO runs as fast as a common factor d of nr and the output divider lets it. Where that is less than half of
    what its range allows, or too slow, and nf has room, the output divider is the largest of all instead.
   */
  lemma ScalingIsLargest(nr: nat, nfi: nat, most: nat, least: int) returns (d: nat, k: nat)
    requires nr >= 1 && 1 <= nfi < NF_MAX && most >= 1
    ensures LargestShare(nr, nfi, most, d, k)
    ensures var s := Scaled(nr, nfi, most, least);
            if (d * k < most / 2 || d * k < least) && d * k < 64 / nfi
            then s.nr == nr && s.nf == nfi * s.od && LargestWhole(nfi, most, s.od)
            else s.nr * d == nr && s.nf == nfi * k && s.od == d * k
  {
    var limit := Min(most, NO_MAX);
    d := Divisor(nr, limit);
    k := Rest(nfi, d, limit);
    RestIsLargest(nr, nfi, most);
    WholeIsLargest(nr, nfi, most);
    hide Divisor, Rest, LargestShare, LargestWhole, Whole, Cancelled;
    WholeShape(nr, nfi, most);
    CancelledShape(nr, nfi, d, k);
  }

  lemma CancelledShape(nr: nat, nfi: nat, d: nat, k: nat)
    requires d >= 1 && nr % d == 0
    ensures var s := Cancelled(nr, nfi, d, k); s.nr * d == nr && s.nf == nfi * k && s.od == d * k
  {
    assert nr / d * d == nr;
  }

  lemma WholeShape(nr: nat, nfi: nat, most: nat)
    requires 1 <= nfi < NF_MAX
    ensures var s := Whole(nr, nfi, most); s.nr == nr && s.nf == nfi * s.od
  {
  }

  /** The checks of one step that do not depend on the steps before. */
  predicate Passes(fin: real, s: Setting) {
    && 1 <= s.nr <= NR_MAX && s.nf >= 1
    && VCO_MIN <= fin / s.nr as real * s.nf as real <= VCO_MAX
    && fin / s.nr as real >= REF_MIN
  }

  function Numerator(fin: real, freq: nat, nfi: nat, rint: real -> int): int
    requires fin > 0.0 && freq > 0
  {
    PositiveRatio(freq as real, fin);
    rint(nfi as real / (freq as real / fin))
  }

  lemma PositiveRatio(a: real, b: real)
    requires a > 0.0 && b > 0.0
    ensures a / b > 0.0
  {
  }

  /** err, the relative error of nfi / nr. */
  function RelativeError(fin: real, freq: nat, nfi: nat, nr: int): real
    requires fin > 0.0 && freq > 0 && nr > 0
  {
    PositiveRatio(freq as real, fin);
    1.0 - nfi as real / nr as real / (freq as real / fin)
  }

  /** What the feedback divider nfi leads to. */
  function At(fin: real, freq: nat, nfi: nat, rint: real -> int): Option<Setting>
    requires fin > 0.0 && 0 < freq <= 1750000000 && nfi < NF_MAX
  {
    var nr := Numerator(fin, freq, nfi, rint);
    if nfi == 0 || nr < 1 || fin / nr as real > REF_MAX then None
    else
      var s := Scaled(nr, nfi, MostDivider(freq), LeastDivider(freq));
      if Passes(fin, s) then Some(s) else None
  }

  /** A candidate close enough to be the first one taken. */
  predicate Viable(fin: real, freq: nat, nfi: nat, rint: real -> int)
    requires fin > 0.0 && 0 < freq <= 1750000000 && nfi < NF_MAX
  {
    && At(fin, freq, nfi, rint).Some?
    && Abs(RelativeError(fin, freq, nfi, Numerator(fin, freq, nfi, rint))) < 1.0 / 64.0 * 1.000001
  }

  // --- accuracy ----------------------------------------------------------------------------------------------

  lemma Cross(a: real, b: real, c: real, d: real)
    requires b != 0.0 && d != 0.0 && a * d == c * b
    ensures a / b == c / d
  {
    var x, y := a / b, c / d;
    assert a == x * b && c == y * d;
    assert x * (b * d) == a * d == c * b == y * (b * d);
  }

  lemma DivideTwice(x: real, a: real, b: real, c: real)
    requires a != 0.0 && c != 0.0
    ensures a * c != 0.0 && x / a * b / c == x * (b / (a * c))
  {
    Cross(x / a * b, c, x * b, a * c);
    var y := x / a;
    assert x == y * a;
    assert x / a * b * (a * c) == x * b * c;
  }

  /** With the ratio nf / (nr * od) equal to nfi / n, the output is off by the relative error of nfi / n. */
  lemma OutputFromError(fin: real, freq: nat, nfi: nat, n: int, s: Setting)
    requires fin > 0.0 && freq > 0 && n > 0 && s.nr > 0 && s.od > 0
    requires s.nf * n == nfi * (s.nr * s.od)
    ensures Output(fin, s) - freq as real == -(freq as real) * RelativeError(fin, freq, nfi, n)
  {
    var a, b, c := s.nr as real, s.nf as real, s.od as real;
    DivideTwice(fin, a, b, c);
    assert (s.nr * s.od) as real == a * c;
    assert b * n as real == (s.nf * n) as real == (nfi * (s.nr * s.od)) as real == nfi as real * (a * c);
    Cross(b, a * c, nfi as real, n as real);
    ErrorTimesFreq(fin, freq as real, nfi as real / n as real);
  }

  lemma ErrorTimesFreq(fin: real, fout: real, ratio: real)
    requires fin > 0.0 && fout > 0.0
    ensures fout / fin != 0.0
    ensures fin * ratio - fout == -fout * (1.0 - ratio / (fout / fin))
  {
    PositiveRatio(fout, fin);
    var val := fout / fin;
    assert val * fin == fout;
    var q := ratio / val;
    assert q * val == ratio;
    assert fin * ratio == fin * val * q == fout * q;
  }

  lemma ScaledBound(fout: real, err: real)
    requires fout > 0.0 && Abs(err) < TERR
    ensures Abs(-fout * err) < fout / 64.0
  {
    if err >= 0.0 {
      assert fout * err < fout * TERR;
    } else {
      assert fout * -err < fout * TERR;
    }
  }

  lemma ReferenceBelowVco(fin: real, s: Setting)
    requires fin > 0.0 && s.nr >= 1 && s.nf >= 1 && fin / s.nr as real * s.nf as real <= VCO_MAX
    ensures fin / s.nr as real <= REF_MAX
  {
    PositiveRatio(fin, s.nr as real);
    var ref := fin / s.nr as real;
    assert ref * s.nf as real >= ref * 1.0;
  }

  lemma CandidateIsScaled(fin: real, freq: nat, nfi: nat, rint: real -> int)
    requires fin > 0.0 && 0 < freq <= 1750000000 && nfi < NF_MAX
    ensures At(fin, freq, nfi, rint).Some? ==>
            var s := At(fin, freq, nfi, rint).value;
            var nr := Numerator(fin, freq, nfi, rint);
            nfi >= 1 && nr >= 1 && ScaledWell(nr, nfi, MostDivider(freq), s) && Passes(fin, s)
  {
    hide Scaled, ScaledWell, Passes, MostDivider, LeastDivider, Numerator;
    if At(fin, freq, nfi, rint).Some? {
      ScalingKeepsRatio(Numerator(fin, freq, nfi, rint), nfi, MostDivider(freq), LeastDivider(freq));
    }
  }

  lemma RangesMet(fin: real, nr: nat, nfi: nat, most: nat, s: Setting)
    requires fin > 0.0 && nfi >= 1 && ScaledWell(nr, nfi, most, s) && Passes(fin, s)
    ensures InRanges(fin, s)
  {
    ReferenceBelowVco(fin, s);
  }

  lemma Accurate(fin: real, freq: nat, nfi: nat, nr: nat, most: nat, s: Setting)
    requires fin > 0.0 && freq > 0 && nr >= 1 && ScaledWell(nr, nfi, most, s)
    requires Abs(RelativeError(fin, freq, nfi, nr)) < TERR
    ensures Abs(Output(fin, s) - freq as real) < freq as real / 64.0
  {
    hide Output, RelativeError;
    OutputFromError(fin, freq, nfi, nr, s);
    ScaledBound(freq as real, RelativeError(fin, freq, nfi, nr));
  }

  /** Every candidate meets the ranges, and a candidate with an error below 1/64 gives a frequency that close. */
  lemma CandidateIsSound(fin: real, freq: nat, nfi: nat, rint: real -> int)
    requires fin > 0.0 && 0 < freq <= 1750000000 && nfi < NF_MAX
    ensures At(fin, freq, nfi, rint).Some? ==>
            var s := At(fin, freq, nfi, rint).value;
            var nr := Numerator(fin, freq, nfi, rint);
            && InRanges(fin, s) && nr >= 1
            && (Abs(RelativeError(fin, freq, nfi, nr)) < TERR ==> Abs(Output(fin, s) - freq as real) < freq as real / 64.0)
  {
    hide At, Numerator, MostDivider, Output, RelativeError, Passes, ScaledWell, InRanges;
    CandidateIsScaled(fin, freq, nfi, rint);
    if At(fin, freq, nfi, rint).Some? {
      var nr := Numerator(fin, freq, nfi, rint);
      var s := At(fin, freq, nfi, rint).value;
      RangesMet(fin, nr, nfi, MostDivider(freq), s);
      if Abs(RelativeError(fin, freq, nfi, nr)) < TERR {
        Accurate(fin, freq, nfi, nr, MostDivider(freq), s);
      }
    }
  }

  /** A feedback divider leads to a setting exactly if the scaled one meets all the ranges. */
  lemma CandidateExactly(fin: real, freq: nat, nfi: nat, rint: real -> int)
    requires fin > 0.0 && 0 < freq <= 1750000000 && nfi < NF_MAX
    ensures var nr := Numerator(fin, freq, nfi, rint);
            var candidate := At(fin, freq, nfi, rint);
            if nfi == 0 || nr < 1 || fin / nr as real > 1750000000.0 then candidate.None?
            else
              var s := Scaled(nr, nfi, MostDivider(freq), LeastDivider(freq));
              candidate == if InRanges(fin, s) then Some(s) else None
  {
    hide Scaled, ScaledWell, MostDivider, LeastDivider, Numerator;
    var nr := Numerator(fin, freq, nfi, rint);
    if nfi > 0 && nr >= 1 {
      ScalingKeepsRatio(nr, nfi, MostDivider(freq), LeastDivider(freq));
      PassesExactly(fin, nr, nfi, MostDivider(freq), Scaled(nr, nfi, MostDivider(freq), LeastDivider(freq)));
    }
  }

  lemma PassesExactly(fin: real, nr: nat, nfi: nat, most: nat, s: Setting)
    requires fin > 0.0 && nfi >= 1 && ScaledWell(nr, nfi, most, s)
    ensures Passes(fin, s) <==> InRanges(fin, s)
  {
    if Passes(fin, s) {
      RangesMet(fin, nr, nfi, most, s);
    }
  }

  /** If rint rounds to the nearest integer, nr is within a half of nfi * fin / freq. */
  lemma NumeratorIsNearest(fin: real, freq: nat, nfi: nat, rint: real -> int)
    requires fin > 0.0 && freq > 0 && forall x: real :: x - 0.5 <= rint(x) as real <= x + 0.5
    ensures var f := freq as real;
            nfi as real * fin - f / 2.0 <= Numerator(fin, freq, nfi, rint) as real * f <= nfi as real * fin + f / 2.0
  {
    var f := freq as real;
    PositiveRatio(f, fin);
    var x := nfi as real / (f / fin);
    QuotientTimes(nfi as real, f, fin);
    Halves(x, rint(x) as real, f, nfi as real * fin);
  }

  lemma Halves(x: real, n: real, f: real, y: real)
    requires f > 0.0 && x * f == y && x - 0.5 <= n <= x + 0.5
    ensures y - f / 2.0 <= n * f <= y + f / 2.0
  {
    Less(x - 0.5, n, f);
    Less(n, x + 0.5, f);
  }

  lemma QuotientTimes(n: real, f: real, fin: real)
    requires f > 0.0 && fin > 0.0
    ensures f / fin != 0.0 && n / (f / fin) * f == n * fin
  {
    PositiveRatio(f, fin);
    var val := f / fin;
    assert val * fin == f;
    var q := n / val;
    assert q * val == n;
    assert q * f == q * val * fin;
  }

  // --- the search ------------------------------------------------------------------------------------------

  /** The loop that looks for a common divisor of nr and the output divider, from limit down. */
  method CommonDivisor(nr: nat, limit: nat) returns (no: nat)
    requires nr >= 1 && limit >= 1
    ensures no == Divisor(nr, limit)
  {
    no := limit;
    while no > 1
      invariant 1 <= no <= limit && Divisor(nr, no) == Divisor(nr, limit)
    {
      if nr / no >= 1 && nr % no == 0 {
        break;
      }
      no := no - 1;
    }
  }

  /** Scales nfi / nr. waits: a setting that must not replace an earlier one, as nf was multiplied up. */
  method Scale(nr: nat, nfi: nat, freq: nat) returns (s: Setting, waits: bool)
    requires nr >= 1 && 1 <= nfi < NF_MAX && 0 < freq <= 1750000000
    ensures s == Scaled(nr, nfi, MostDivider(freq), LeastDivider(freq))
    ensures waits <==> s.nf > nfi
    ensures s.nr >= 1 && s.od >= 1 && s.nf == s.nb <= NF_MAX
  {
    hide MostDivider, LeastDivider, Divisor;
    var most, least := MostDivider(freq), LeastDivider(freq);
    var limit := Min(most, NO_MAX);
    var no := CommonDivisor(nr, limit);
    var nor := limit / no;
    var nore := NF_MAX / nfi;
    if nor > nore {
      nor := nore;
    }
    ScalingKeepsRatio(nr, nfi, most, least);
    if (no * nor < most / 2 || no * nor < least) && no * nor < NF_MAX / nfi {
      no := NF_MAX / nfi;
      if no > NO_MAX {
        no := NO_MAX;
      }
      if no > most {
        no := most;
      }
      MultipliedUp(nfi, no);
      s, waits := Setting(nr, nfi * no, no, nfi * no), no > 1;
    } else {
      MultipliedUp(nfi, nor);
      s, waits := Setting(nr / no, nfi * nor, no * nor, nfi * nor), nor > 1;
    }
  }

  lemma MultipliedUp(nfi: nat, times: nat)
    requires nfi >= 1
    ensures times > 1 <==> nfi * times > nfi
  {
    if times > 1 {
      assert nfi * times >= nfi * 2;
    } else {
      assert times == 0 || times == 1;
    }
  }

  /** Where the search starts: the wanted ratio, rounded down. */
  function FirstDivider(fin: real, freq: nat): nat
    requires fin > 0.0 && freq > 0
  {
    PositiveRatio(freq as real, fin);
    (freq as real / fin).Floor
  }

  lemma FirstIsRatio(fin: real, freq: nat)
    requires fin > 0.0 && freq > 0
    ensures var first := FirstDivider(fin, freq) as real; first * fin <= freq as real < (first + 1.0) * fin
  {
    PositiveRatio(freq as real, fin);
    var first := FirstDivider(fin, freq) as real;
    BetweenProducts(freq as real, fin, first);
  }

  /** The setting and error that the feedback divider nfi leads to. */
  predicate ComesFrom(fin: real, freq: nat, rint: real -> int, nfi: nat, s: Setting, err: real)
    requires fin > 0.0 && 0 < freq <= 1750000000
  {
    && nfi < NF_MAX && At(fin, freq, nfi, rint) == Some(s)
    && err == RelativeError(fin, freq, nfi, Numerator(fin, freq, nfi, rint))
  }

  predicate SomeViable(fin: real, freq: nat, rint: real -> int, low: nat, high: nat)
    requires fin > 0.0 && 0 < freq <= 1750000000
  {
    exists i: nat :: low <= i < high && i < NF_MAX && Viable(fin, freq, i, rint)
  }

  lemma NoneYet(fin: real, freq: nat, rint: real -> int, low: nat, high: nat)
    requires fin > 0.0 && 0 < freq <= 1750000000 && high <= low
    ensures !SomeViable(fin, freq, rint, low, high)
  {
  }

  lemma OneMore(fin: real, freq: nat, rint: real -> int, low: nat, nfi: nat)
    requires fin > 0.0 && 0 < freq <= 1750000000 && low <= nfi < NF_MAX
    ensures SomeViable(fin, freq, rint, low, nfi + 1)
       <==> SomeViable(fin, freq, rint, low, nfi) || Viable(fin, freq, nfi, rint)
  {
    hide Viable;
  }

  /** A viable candidate is one that the first round of the search takes. */
  lemma ViableExactly(fin: real, freq: nat, nfi: nat, nr: int, rint: real -> int, err: real)
    requires fin > 0.0 && 0 < freq <= 1750000000 && nfi < NF_MAX && nr == Numerator(fin, freq, nfi, rint)
    requires nr >= 1 ==> err == RelativeError(fin, freq, nfi, nr)
    ensures Viable(fin, freq, nfi, rint) <==>
            && nr >= 1 && fin / nr as real <= REF_MAX && Abs(err) < TERR * (1.0 + SLACK)
            && nfi > 0 && Passes(fin, Scaled(nr, nfi, MostDivider(freq), LeastDivider(freq)))
    ensures nr >= 1 && nfi == 0 ==> Abs(err) == 1.0
  {
    hide Passes, Scaled, MostDivider, LeastDivider, Numerator;
  }

  predicate CloseEnough(err: real, merr: real) {
    Abs(err) < merr * (1.0 + SLACK) || Abs(err) < 0.0000000000000001
  }

  /** No candidate has an error in the narrow band around TERR that the first check lets in and the last one out. */
  ghost predicate NoBorderline(fin: real, freq: nat, rint: real -> int)
    requires fin > 0.0 && 0 < freq <= 1750000000
  {
    forall i: nat, s, err ::
      ComesFrom(fin, freq, rint, i, s, err) ==> Abs(err) < 1.0 / 64.0 * 0.999999 || Abs(err) >= 1.0 / 64.0 * 1.000001
  }

  lemma StaysClear(fin: real, freq: nat, rint: real -> int, i: nat, s: Setting, err: real, merr: real)
    requires fin > 0.0 && 0 < freq <= 1750000000 && ComesFrom(fin, freq, rint, i, s, err)
    requires NoBorderline(fin, freq, rint) && CloseEnough(err, merr)
    requires merr == TERR || merr < TERR * (1.0 - SLACK)
    ensures Abs(err) < TERR * (1.0 - SLACK)
  {
    hide ComesFrom;
  }

  /**
    Does the search take this candidate? It must not replace an earlier one if nf was multiplied up or nr is larger,
    and it must have a smaller error or a larger output divider.
   */
  predicate Takes(found: bool, best: Setting, merr: real, nfi: nat, s: Setting, err: real) {
    && CloseEnough(err, merr)
    && (found ==> s.nf <= nfi && s.nr <= best.nr)
    && (Abs(err) < merr * (1.0 - SLACK) || s.od > best.od)
  }

  /**
    One round of the search, with the best setting so far and merr, the size of its error. The first viable
    candidate is always taken.
  */
  method Round(fin: real, freq: nat, rint: real -> int, nfi: nat, found: bool, best: Setting, merr: real)
    returns (taken: bool, s: Setting, err: real)
    requires fin > 0.0 && 0 < freq <= 1750000000 && nfi < NF_MAX
    requires if found then nfi > 0 else merr == TERR && best.od == 0
    ensures taken ==> ComesFrom(fin, freq, rint, nfi, s, err)
    ensures taken ==> Takes(found, best, merr, nfi, s, err)
    ensures !taken ==> forall s', err' ::
              ComesFrom(fin, freq, rint, nfi, s', err') ==> !Takes(found, best, merr, nfi, s', err')
    ensures !found ==> (taken <==> Viable(fin, freq, nfi, rint))
  {
    hide Passes, Scaled, MostDivider, LeastDivider, Numerator, Viable;
    PositiveRatio(freq as real, fin);
    var val := freq as real / fin;
    taken, s, err := false, best, 0.0;
    var nr := Numerator(fin, freq, nfi, rint);
    if nr < 1 || fin / nr as real > REF_MAX {
      ViableExactly(fin, freq, nfi, nr, rint, if nr >= 1 then RelativeError(fin, freq, nfi, nr) else 0.0);
      return;
    }
    err := 1.0 - nfi as real / nr as real / val;
    ViableExactly(fin, freq, nfi, nr, rint, err);
    if !CloseEnough(err, merr) {
      return;
    }
    var waits;
    s, waits := Scale(nr, nfi, freq);
    if waits && found {
      return;
    }
    if !Passes(fin, s) {
      return;
    }
    if !(Abs(err) < merr * (1.0 - SLACK) || s.od > best.od) {
      return;
    }
    taken := !(found && s.nr > best.nr);
  }

  /** The best setting among the feedback dividers from low to below high, and its error. */
  datatype Choice = Choice(found: bool, best: Setting, err: real)

  const NO_CHOICE := Choice(false, Setting(0, 0, 0, 0), 0.0)

  function SizeOfError(choice: Choice): real {
    if choice.found then Abs(choice.err) else TERR
  }

  function Chosen(fin: real, freq: nat, rint: real -> int, low: nat, high: nat): Choice
    requires fin > 0.0 && 0 < freq <= 1750000000
    decreases high
  {
    if high <= low || high > NF_MAX then NO_CHOICE
    else
      var before := Chosen(fin, freq, rint, low, high - 1);
      var nr := Numerator(fin, freq, high - 1, rint);
      if At(fin, freq, high - 1, rint).None? then before
      else
        var s, err := At(fin, freq, high - 1, rint).value, RelativeError(fin, freq, high - 1, nr);
        if Takes(before.found, before.best, SizeOfError(before), high - 1, s, err) then Choice(true, s, err) else before
  }

  lemma ChosenNext(fin: real, freq: nat, rint: real -> int, low: nat, nfi: nat, taken: bool, s: Setting, err: real)
    requires fin > 0.0 && 0 < freq <= 1750000000 && low <= nfi < NF_MAX
    requires var before := Chosen(fin, freq, rint, low, nfi);
             var merr := SizeOfError(before);
             && (taken ==> ComesFrom(fin, freq, rint, nfi, s, err) && Takes(before.found, before.best, merr, nfi, s, err))
             && (!taken ==> forall s', err' ::
                   ComesFrom(fin, freq, rint, nfi, s', err') ==> !Takes(before.found, before.best, merr, nfi, s', err'))
    ensures Chosen(fin, freq, rint, low, nfi + 1)
         == if taken then Choice(true, s, err) else Chosen(fin, freq, rint, low, nfi)
  {
    hide Takes, Numerator, RelativeError, SizeOfError;
    if At(fin, freq, nfi, rint).Some? {
      assert ComesFrom(fin, freq, rint, nfi, At(fin, freq, nfi, rint).value,
                       RelativeError(fin, freq, nfi, Numerator(fin, freq, nfi, rint)));
    }
  }

  lemma NoChoiceYet(fin: real, freq: nat, rint: real -> int, low: nat, high: nat)
    requires fin > 0.0 && 0 < freq <= 1750000000 && high <= low
    ensures Chosen(fin, freq, rint, low, high) == NO_CHOICE
  {
  }

  // --- how good the chosen setting is ------------------------------------------------------------------------

  /** Errors below this count as none. */
  const NO_ERROR := 0.0000000000000001

  /** 64 rounds of taking an error that is larger by the slack. */
  const DRIFT := 1.0 + 130.0 * SLACK

  /** One round: the choice stays, or becomes the candidate of this divider; the latter exactly if it takes it. */
  lemma ChosenStep(fin: real, freq: nat, rint: real -> int, low: nat, h: nat)
    requires fin > 0.0 && 0 < freq <= 1750000000 && low <= h < NF_MAX
    ensures var c, d := Chosen(fin, freq, rint, low, h), Chosen(fin, freq, rint, low, h + 1);
            && (d == c || (d.found && ComesFrom(fin, freq, rint, h, d.best, d.err)
                           && Takes(c.found, c.best, SizeOfError(c), h, d.best, d.err)))
            && forall s, err :: ComesFrom(fin, freq, rint, h, s, err) ==>
                 d == if Takes(c.found, c.best, SizeOfError(c), h, s, err) then Choice(true, s, err) else c
  {
    hide Takes, At, Numerator, RelativeError;
  }

  lemma {:induction false} NrShrinks(fin: real, freq: nat, rint: real -> int, low: nat, h: nat, top: nat)
    requires fin > 0.0 && 0 < freq <= 1750000000 && low <= h <= top <= NF_MAX
    ensures var c, d := Chosen(fin, freq, rint, low, h), Chosen(fin, freq, rint, low, top);
            c.found ==> d.found && d.best.nr <= c.best.nr
    decreases top
  {
    if h < top {
      NrShrinks(fin, freq, rint, low, h, top - 1);
      hide Chosen, ComesFrom, CloseEnough;
      ChosenStep(fin, freq, rint, low, top - 1);
    }
  }

  lemma Bounded(b: real, x: real, y: real)
    requires b >= 0.0 && x <= y
    ensures b * x <= b * y
  {
  }

  /** What k rounds can make of an error, at most. */
  function Factor(k: nat): real {
    1.0 + 2.0 * SLACK * k as real
  }

  lemma FactorGrows(k: nat)
    requires k <= 64
    ensures 1.0 <= Factor(k) <= Factor(k + 1) && Factor(k) * (1.0 + SLACK) <= Factor(k + 1)
  {
  }

  /** An error e within the slack of m, where m is at most b times f. */
  lemma SlackGrows(e: real, m: real, b: real, f: real, f': real)
    requires b >= 0.0 && m <= b * f && f * (1.0 + SLACK) <= f' && e < m * (1.0 + SLACK)
    ensures e <= b * f'
  {
    Bounded(1.0 + SLACK, m, b * f);
    assert (1.0 + SLACK) * (b * f) == b * (f * (1.0 + SLACK));
    Bounded(b, f * (1.0 + SLACK), f');
  }

  /** A round makes the error larger by the slack at most. */
  lemma DriftStep(c: Choice, d: Choice, b: real, k: nat)
    requires b >= NO_ERROR && k <= 64 && SizeOfError(c) <= b * Factor(k)
    requires d == c || (d.found && CloseEnough(d.err, SizeOfError(c)))
    ensures SizeOfError(d) <= b * Factor(k + 1)
  {
    FactorGrows(k);
    var f, f', m := Factor(k), Factor(k + 1), SizeOfError(c);
    hide Factor;
    Bounded(b, 1.0, f');
    Bounded(b, f, f');
    if d != c && Abs(d.err) < m * (1.0 + SLACK) {
      SlackGrows(Abs(d.err), m, b, f, f');
    }
  }

  lemma TakesIsClose(c: Choice, i: nat, s: Setting, err: real)
    ensures Takes(c.found, c.best, SizeOfError(c), i, s, err) ==> CloseEnough(err, SizeOfError(c))
  {
  }

  lemma {:induction false} Drift(fin: real, freq: nat, rint: real -> int, low: nat, i: nat, h: nat, b: real)
    requires fin > 0.0 && 0 < freq <= 1750000000 && low <= i < h <= NF_MAX && b >= NO_ERROR
    requires SizeOfError(Chosen(fin, freq, rint, low, i + 1)) <= b * Factor(1)
    ensures SizeOfError(Chosen(fin, freq, rint, low, h)) <= b * Factor(h - i)
    decreases h
  {
    hide Chosen, ComesFrom, CloseEnough, SizeOfError, Factor, Takes;
    if h > i + 1 {
      Drift(fin, freq, rint, low, i, h - 1, b);
      ChosenStep(fin, freq, rint, low, h - 1);
      var c, d := Chosen(fin, freq, rint, low, h - 1), Chosen(fin, freq, rint, low, h);
      TakesIsClose(c, h - 1, d.best, d.err);
      DriftStep(c, d, b, h - 1 - i);
    } else {
      assert h - i == 1;
    }
  }

  /** After the round of a candidate that nothing bars, the error is no larger than its own, up to the slack. */
  lemma AfterRound(c: Choice, i: nat, s: Setting, err: real)
    requires c.found ==> s.nf <= i && s.nr <= c.best.nr
    requires s.od >= 1 && (!c.found ==> c.best.od == 0)
    ensures var d := if Takes(c.found, c.best, SizeOfError(c), i, s, err) then Choice(true, s, err) else c;
            SizeOfError(d) <= (Abs(err) + NO_ERROR) * Factor(1)
  {
    var m, e := SizeOfError(c), Abs(err);
    assert (e + NO_ERROR) * (1.0 + 2.0 * SLACK) >= e;
    if CloseEnough(err, m) && !(e < m * (1.0 - SLACK)) && m > e {
      assert m * (1.0 - SLACK) * (1.0 + 2.0 * SLACK) <= e * (1.0 + 2.0 * SLACK);
    }
  }

  lemma NothingFoundYet(fin: real, freq: nat, rint: real -> int, low: nat, h: nat)
    requires fin > 0.0 && 0 < freq <= 1750000000
    ensures var c := Chosen(fin, freq, rint, low, h); !c.found ==> c == NO_CHOICE
  {
  }

  /** Something is found exactly when something is viable. */
  lemma {:induction false} FoundExactly(fin: real, freq: nat, rint: real -> int, low: nat, h: nat)
    requires fin > 0.0 && 0 < freq <= 1750000000 && h <= NF_MAX
    ensures Chosen(fin, freq, rint, low, h).found <==> SomeViable(fin, freq, rint, low, h)
    decreases h
  {
    hide Chosen, Viable, SomeViable;
    if h <= low {
      NoneYet(fin, freq, rint, low, h);
      NoChoiceYet(fin, freq, rint, low, h);
    } else {
      FoundExactly(fin, freq, rint, low, h - 1);
      NothingFoundYet(fin, freq, rint, low, h - 1);
      OneMore(fin, freq, rint, low, h - 1);
      if Chosen(fin, freq, rint, low, h - 1).found {
        NrShrinks(fin, freq, rint, low, h - 1, h);
      } else {
        FirstIsTaken(fin, freq, rint, low, h - 1);
      }
    }
  }

  /** While nothing is found, a candidate is taken exactly if it is viable. */
  lemma FirstIsTaken(fin: real, freq: nat, rint: real -> int, low: nat, h: nat)
    requires fin > 0.0 && 0 < freq <= 1750000000 && low <= h < NF_MAX
    requires Chosen(fin, freq, rint, low, h) == NO_CHOICE
    ensures Chosen(fin, freq, rint, low, h + 1).found <==> Viable(fin, freq, h, rint)
  {
    hide Numerator, RelativeError, ScaledWell, Scaled, Passes, MostDivider, LeastDivider;
    if At(fin, freq, h, rint).Some? {
      CandidateDivides(fin, freq, rint, h, At(fin, freq, h, rint).value,
                       RelativeError(fin, freq, h, Numerator(fin, freq, h, rint)));
    }
  }

  /** Nothing bars this candidate: it was not multiplied up and needs no larger reference divider than best. */
  predicate Eligible(i: nat, s: Setting, best: Setting) {
    s.nf <= i && s.nr <= best.nr
  }

  /**
    The choice is as accurate, up to the slack of 64 rounds, as any candidate that needs no larger reference divider
    and was not multiplied up, and as the first viable one.
   */
  lemma NoCandidateCloser(fin: real, freq: nat, rint: real -> int, low: nat, i: nat, s: Setting, err: real)
    requires fin > 0.0 && 0 < freq <= 1750000000 && low <= i < NF_MAX && ComesFrom(fin, freq, rint, i, s, err)
    requires var d := Chosen(fin, freq, rint, low, NF_MAX);
             d.found && (Eligible(i, s, d.best) || !SomeViable(fin, freq, rint, low, i))
    ensures Abs(Chosen(fin, freq, rint, low, NF_MAX).err) <= (Abs(err) + NO_ERROR) * DRIFT
  {
    hide Chosen, ComesFrom, Takes, SizeOfError, SomeViable, Factor, Abs, Eligible;
    AfterOwnRound(fin, freq, rint, low, i, s, err);
    Drift(fin, freq, rint, low, i, NF_MAX, Abs(err) + NO_ERROR);
    LastFactor(SizeOfError(Chosen(fin, freq, rint, low, NF_MAX)), Abs(err) + NO_ERROR, NF_MAX - i);
    ErrorOf(Chosen(fin, freq, rint, low, NF_MAX));
  }

  lemma AfterOwnRound(fin: real, freq: nat, rint: real -> int, low: nat, i: nat, s: Setting, err: real)
    requires fin > 0.0 && 0 < freq <= 1750000000 && low <= i < NF_MAX && ComesFrom(fin, freq, rint, i, s, err)
    requires var d := Chosen(fin, freq, rint, low, NF_MAX);
             d.found && (Eligible(i, s, d.best) || !SomeViable(fin, freq, rint, low, i))
    ensures SizeOfError(Chosen(fin, freq, rint, low, i + 1)) <= (Abs(err) + NO_ERROR) * Factor(1)
    ensures Abs(err) + NO_ERROR >= NO_ERROR
  {
    hide Chosen, ComesFrom, Takes, SizeOfError, SomeViable, Factor;
    FoundExactly(fin, freq, rint, low, i);
    var c := Chosen(fin, freq, rint, low, i);
    NrShrinks(fin, freq, rint, low, i, NF_MAX);
    NothingFoundYet(fin, freq, rint, low, i);
    CandidateDivides(fin, freq, rint, i, s, err);
    AfterRound(c, i, s, err);
    ChosenStep(fin, freq, rint, low, i);
  }

  /** The choice needs no larger reference divider than the first viable candidate. */
  lemma NoLargerThanFirst(fin: real, freq: nat, rint: real -> int, low: nat, i: nat, s: Setting, err: real)
    requires fin > 0.0 && 0 < freq <= 1750000000 && low <= i < NF_MAX && ComesFrom(fin, freq, rint, i, s, err)
    requires Viable(fin, freq, i, rint) && !SomeViable(fin, freq, rint, low, i)
    ensures var d := Chosen(fin, freq, rint, low, NF_MAX); d.found && d.best.nr <= s.nr
  {
    FoundExactly(fin, freq, rint, low, i);
    NothingFoundYet(fin, freq, rint, low, i);
    FirstIsTaken(fin, freq, rint, low, i);
    ChosenStep(fin, freq, rint, low, i);
    hide Chosen, Viable, SomeViable, Takes;
    NrShrinks(fin, freq, rint, low, i + 1, NF_MAX);
  }

  /** The choice is a candidate, and one that was multiplied up only if it is the first viable one. */
  lemma {:induction false} ChosenFrom(fin: real, freq: nat, rint: real -> int, low: nat, h: nat) returns (i: nat)
    requires fin > 0.0 && 0 < freq <= 1750000000 && h <= NF_MAX
    ensures var d := Chosen(fin, freq, rint, low, h);
            d.found ==>
              && low <= i < h && ComesFrom(fin, freq, rint, i, d.best, d.err)
              && (d.best.nf <= i || !SomeViable(fin, freq, rint, low, i))
    decreases h
  {
    i := 0;
    if h > low {
      i := ChosenFrom(fin, freq, rint, low, h - 1);
      FoundExactly(fin, freq, rint, low, h - 1);
      ChosenStep(fin, freq, rint, low, h - 1);
      if Chosen(fin, freq, rint, low, h) != Chosen(fin, freq, rint, low, h - 1) {
        i := h - 1;
      }
      hide Chosen, ComesFrom, SomeViable, CloseEnough, SizeOfError;
    }
  }

  // --- which setting is chosen when no two errors are nearly equal -------------------------------------------

  /** The slack does not blur the order of x and y. */
  predicate Apart(x: real, y: real) {
    x == y || x < y * (1.0 - SLACK) || (x >= y * (1.0 + SLACK) && x >= NO_ERROR)
  }

  /** No two candidates have errors that differ by the slack only, and none has one that close to the limit. */
  ghost predicate NoNearTies(fin: real, freq: nat, rint: real -> int)
    requires fin > 0.0 && 0 < freq <= 1750000000
  {
    forall i: nat, s, err :: ComesFrom(fin, freq, rint, i, s, err) ==>
      && Apart(Abs(err), TERR)
      && forall j: nat, t, other :: ComesFrom(fin, freq, rint, j, t, other) ==> Apart(Abs(err), Abs(other))
  }

  /** A smaller error is better; of equal ones, no smaller output divider. */
  predicate AtLeastAsGood(best: Setting, bestErr: real, s: Setting, err: real) {
    Abs(bestErr) < Abs(err) || (Abs(bestErr) == Abs(err) && best.od >= s.od)
  }

  /** What a choice is worth against a candidate seen before: if nothing is found yet, that one was too far off. */
  predicate Beats(c: Choice, s: Setting, err: real) {
    if c.found then AtLeastAsGood(c.best, c.err, s, err) else Abs(err) > TERR
  }

  /** Without near ties, a candidate replaces the choice exactly if it is better. */
  lemma TakesTheBetter(c: Choice, i: nat, s: Setting, err: real)
    requires s.od >= 1 && (!c.found ==> c == NO_CHOICE) && Apart(Abs(err), SizeOfError(c))
    ensures Takes(c.found, c.best, SizeOfError(c), i, s, err) <==>
            if c.found then Eligible(i, s, c.best) && !AtLeastAsGood(c.best, c.err, s, err) else Abs(err) <= TERR
  {
    var m := SizeOfError(c);
    assert m >= 0.0;
    assert m * (1.0 - SLACK) <= m <= m * (1.0 + SLACK);
  }

  /** Each round keeps what the choice is worth. */
  lemma {:induction false} KeepsBeating(fin: real, freq: nat, rint: real -> int, low: nat, i: nat, h: nat, s: Setting,
                                        err: real)
    requires fin > 0.0 && 0 < freq <= 1750000000 && low <= i < h <= NF_MAX && NoNearTies(fin, freq, rint)
    requires Beats(Chosen(fin, freq, rint, low, i + 1), s, err)
    ensures Beats(Chosen(fin, freq, rint, low, h), s, err)
    decreases h
  {
    hide Chosen, ComesFrom, Takes, Apart;
    if h > i + 1 {
      KeepsBeating(fin, freq, rint, low, i, h - 1, s, err);
      var c, d := Chosen(fin, freq, rint, low, h - 1), Chosen(fin, freq, rint, low, h);
      ChosenStep(fin, freq, rint, low, h - 1);
      NothingFoundYet(fin, freq, rint, low, h - 1);
      var j := ChosenFrom(fin, freq, rint, low, h - 1);
      if d != c {
        CandidateDivides(fin, freq, rint, h - 1, d.best, d.err);
        TakesTheBetter(c, h - 1, d.best, d.err);
      }
    }
  }

  /**
    When no two errors are nearly equal, no candidate that the choice's reference divider allows, and that was not
    multiplied up, has a smaller error, or the same error and a larger output divider.
   */
  lemma NoCandidateBetter(fin: real, freq: nat, rint: real -> int, low: nat, i: nat, s: Setting, err: real)
    requires fin > 0.0 && 0 < freq <= 1750000000 && low <= i < NF_MAX && ComesFrom(fin, freq, rint, i, s, err)
    requires NoNearTies(fin, freq, rint)
    requires var d := Chosen(fin, freq, rint, low, NF_MAX);
             d.found && (Eligible(i, s, d.best) || !SomeViable(fin, freq, rint, low, i))
    ensures var d := Chosen(fin, freq, rint, low, NF_MAX); AtLeastAsGood(d.best, d.err, s, err)
  {
    FoundExactly(fin, freq, rint, low, i);
    hide Chosen, ComesFrom, Takes, Apart, SomeViable;
    var c := Chosen(fin, freq, rint, low, i);
    NrShrinks(fin, freq, rint, low, i, NF_MAX);
    NothingFoundYet(fin, freq, rint, low, i);
    CandidateDivides(fin, freq, rint, i, s, err);
    ChosenStep(fin, freq, rint, low, i);
    var j := ChosenFrom(fin, freq, rint, low, i);
    TakesTheBetter(c, i, s, err);
    KeepsBeating(fin, freq, rint, low, i, NF_MAX, s, err);
  }

  lemma CandidateDivides(fin: real, freq: nat, rint: real -> int, i: nat, s: Setting, err: real)
    requires fin > 0.0 && 0 < freq <= 1750000000 && ComesFrom(fin, freq, rint, i, s, err)
    ensures s.od >= 1
  {
    hide At, Numerator, MostDivider, RelativeError;
    CandidateIsScaled(fin, freq, i, rint);
  }

  lemma LastFactor(e: real, b: real, k: nat)
    requires k <= 64 && b >= 0.0 && e <= b * Factor(k)
    ensures e <= b * DRIFT
  {
    Bounded(b, Factor(k), DRIFT);
  }

  lemma ErrorOf(c: Choice)
    ensures c.found ==> SizeOfError(c) == Abs(c.err)
  {
  }

  // --- the same, about what the search returns ---------------------------------------------------------------

  /** This candidate of the search is the first viable one, or nothing bars it when the result is best. */
  ghost predicate Competes(fin: real, freq: nat, rint: real -> int, best: Setting, i: nat, s: Setting, err: real)
    requires fin > 0.0 && 0 < freq <= 1750000000
  {
    var first := FirstDivider(fin, freq);
    first <= i && ComesFrom(fin, freq, rint, i, s, err) && (Eligible(i, s, best) || !SomeViable(fin, freq, rint, first, i))
  }

  /** The result is a candidate that was not multiplied up, or else the first viable one. */
  ghost predicate IsCandidate(fin: real, freq: nat, rint: real -> int, best: Setting, bestErr: real)
    requires fin > 0.0 && 0 < freq <= 1750000000
  {
    exists i: nat ::
      Competes(fin, freq, rint, best, i, best, bestErr)
  }

  /** No candidate is closer than the result, but for the slack of 64 rounds. */
  ghost predicate NoneCloser(fin: real, freq: nat, rint: real -> int, best: Setting, bestErr: real)
    requires fin > 0.0 && 0 < freq <= 1750000000
  {
    forall i: nat, s, err :: Competes(fin, freq, rint, best, i, s, err) ==> Abs(bestErr) <= (Abs(err) + NO_ERROR) * DRIFT
  }

  /** No candidate has a smaller error, or the same error and a larger output divider. */
  ghost predicate NoneBetter(fin: real, freq: nat, rint: real -> int, best: Setting, bestErr: real)
    requires fin > 0.0 && 0 < freq <= 1750000000
  {
    forall i: nat, s, err :: Competes(fin, freq, rint, best, i, s, err) ==>
      Abs(bestErr) < Abs(err) || (Abs(bestErr) == Abs(err) && best.od >= s.od)
  }

  predicate IsFirstViable(fin: real, freq: nat, rint: real -> int, i: nat)
    requires fin > 0.0 && 0 < freq <= 1750000000
  {
    && FirstDivider(fin, freq) <= i < NF_MAX && Viable(fin, freq, i, rint)
    && !SomeViable(fin, freq, rint, FirstDivider(fin, freq), i)
  }

  /** The first viable candidate needs no smaller reference divider than the result. */
  ghost predicate NrAtMostFirst(fin: real, freq: nat, rint: real -> int, best: Setting)
    requires fin > 0.0 && 0 < freq <= 1750000000
  {
    forall i: nat, s, err :: ComesFrom(fin, freq, rint, i, s, err) && IsFirstViable(fin, freq, rint, i) ==> best.nr <= s.nr
  }

  lemma ChosenIsCandidate(fin: real, freq: nat, rint: real -> int, best: Setting, bestErr: real)
    requires fin > 0.0 && 0 < freq <= 1750000000
    requires Chosen(fin, freq, rint, FirstDivider(fin, freq), NF_MAX) == Choice(true, best, bestErr)
    ensures IsCandidate(fin, freq, rint, best, bestErr) && NrAtMostFirst(fin, freq, rint, best)
  {
    hide Chosen, ComesFrom, SomeViable, FirstDivider, Viable;
    var first := FirstDivider(fin, freq);
    var j := ChosenFrom(fin, freq, rint, first, NF_MAX);
    assert Competes(fin, freq, rint, best, j, best, bestErr);
    forall i: nat, s, err | ComesFrom(fin, freq, rint, i, s, err) && IsFirstViable(fin, freq, rint, i)
      ensures best.nr <= s.nr
    {
      NoLargerThanFirst(fin, freq, rint, first, i, s, err);
    }
  }

  lemma IsDivider(fin: real, freq: nat, rint: real -> int, i: nat, s: Setting, err: real)
    requires fin > 0.0 && 0 < freq <= 1750000000 && ComesFrom(fin, freq, rint, i, s, err)
    ensures i < NF_MAX
  {
  }

  lemma ChosenIsBest(fin: real, freq: nat, rint: real -> int, best: Setting, bestErr: real)
    requires fin > 0.0 && 0 < freq <= 1750000000
    requires Chosen(fin, freq, rint, FirstDivider(fin, freq), NF_MAX) == Choice(true, best, bestErr)
    ensures NoneCloser(fin, freq, rint, best, bestErr)
    ensures NoNearTies(fin, freq, rint) ==> NoneBetter(fin, freq, rint, best, bestErr)
  {
    hide Chosen, ComesFrom, SomeViable, FirstDivider, Abs, Eligible, NoNearTies;
    forall i: nat, s, err | Competes(fin, freq, rint, best, i, s, err)
      ensures Abs(bestErr) <= (Abs(err) + NO_ERROR) * DRIFT
      ensures NoNearTies(fin, freq, rint) ==> AtLeastAsGood(best, bestErr, s, err)
    {
      IsDivider(fin, freq, rint, i, s, err);
      NoCandidateCloser(fin, freq, rint, FirstDivider(fin, freq), i, s, err);
      if NoNearTies(fin, freq, rint) {
        NoCandidateBetter(fin, freq, rint, FirstDivider(fin, freq), i, s, err);
      }
    }
  }

  /**
    Tries every feedback divider. It finds a setting exactly when there is a viable one, and what it keeps comes
    from one of them.
  */
  method Search(fin: real, freq: nat, rint: real -> int) returns (found: bool, best: Setting, bestErr: real)
    requires fin > 0.0 && 0 < freq <= 1750000000
    ensures found <==> SomeViable(fin, freq, rint, FirstDivider(fin, freq), NF_MAX)
    ensures found ==> IsCandidate(fin, freq, rint, best, bestErr) && NrAtMostFirst(fin, freq, rint, best)
    ensures found ==> NoneCloser(fin, freq, rint, best, bestErr)
    ensures found && NoNearTies(fin, freq, rint) ==> NoneBetter(fin, freq, rint, best, bestErr)
    ensures found && NoBorderline(fin, freq, rint) ==> Abs(bestErr) < TERR * (1.0 - SLACK)
    ensures Choice(found, best, bestErr) == Chosen(fin, freq, rint, FirstDivider(fin, freq), NF_MAX)
  {
    hide Chosen, Viable, SomeViable, ComesFrom, CloseEnough, FirstDivider, NoBorderline, IsCandidate, NrAtMostFirst,
         NoneCloser, NoneBetter, NoNearTies;
    var merr := TERR;
    var first := FirstDivider(fin, freq);
    var nfi := first;
    found, best, bestErr := false, Setting(0, 0, 0, 0), 0.0;
    ghost var from: nat := 0;
    NoneYet(fin, freq, rint, nfi, nfi);
    NoChoiceYet(fin, freq, rint, nfi, nfi);
    if nfi >= NF_MAX {
      NoChoiceYet(fin, freq, rint, nfi, NF_MAX);
      NoneYet(fin, freq, rint, nfi, NF_MAX);
    }
    while nfi < NF_MAX
      invariant first <= nfi && (nfi == first || nfi <= NF_MAX) && (nfi == 0 ==> !found)
      invariant if found then ComesFrom(fin, freq, rint, from, best, bestErr) else merr == TERR && best.od == 0
      invariant found <==> SomeViable(fin, freq, rint, first, nfi)
      invariant found ==> merr == Abs(bestErr) && (NoBorderline(fin, freq, rint) ==> merr < TERR * (1.0 - SLACK))
      invariant Choice(found, best, bestErr) == Chosen(fin, freq, rint, first, nfi)
    {
      OneMore(fin, freq, rint, first, nfi);
      var taken, s, err := Round(fin, freq, rint, nfi, found, best, merr);
      ChosenNext(fin, freq, rint, first, nfi, taken, s, err);
      if taken {
        if NoBorderline(fin, freq, rint) {
          StaysClear(fin, freq, rint, nfi, s, err, merr);
        }
        found, best, bestErr, from := true, s, err, nfi;
        merr := Abs(err);
      }
      nfi := nfi + 1;
    }
    if found {
      ChosenIsCandidate(fin, freq, rint, best, bestErr);
      ChosenIsBest(fin, freq, rint, best, bestErr);
    }
  }

  // --- the registers -----------------------------------------------------------------------------------------

  type uint2 = x: int | 0 <= x < 4
  type uint4 = x: int | 0 <= x < 16
  type uint6 = x: int | 0 <= x < 64

  /** One PLL control register: fields of 4, 6, 4 and 6 bits, the input selector of PLL2, and the other bits. */
  datatype Register = Register(clkr: uint4, clkf: uint6, clkod: uint4, bwadj: uint6, select: uint2, others: nat)

  datatype Name = Pll0 | Pll1 | Pll2
  datatype Source = FromIn0 | FromPll0 | FromPll1 | FromPll2 | FromAclk

  const FREQ_IN0 := 26000000

  /** The setting that a register stands for. */
  function SettingIn(r: Register): (s: Setting) {
    Setting(r.clkr + 1, r.clkf + 1, r.clkod + 1, r.bwadj + 1)
  }

  /** get_select_pll2 and get_source_pll2: the code of a source in PLL2's input selector, and back. */
  function SelectCode(source: Source): Option<uint2> {
    match source
    case FromIn0 => Some(0)
    case FromPll0 => Some(1)
    case FromPll1 => Some(2)
    case _ => None
  }

  function SelectedSource(code: uint2): Option<Source> {
    if code == 0 then Some(FromIn0) else if code == 1 then Some(FromPll0) else if code == 2 then Some(FromPll1) else None
  }

  lemma SelectorRoundTrip(source: Source, code: uint2)
    ensures SelectCode(source) == Some(code) <==> SelectedSource(code) == Some(source)
  {
  }

  /** The frequency a setting gives, cut to whole Hz. */
  function WholeHz(fin: nat, s: Setting): (r: int)
    requires s.nr > 0 && s.od > 0
  {
    Output(fin as real, s).Floor
  }

  lemma WholeHzPositive(fin: nat, s: Setting)
    requires s.nr > 0 && s.od > 0 && s.nf > 0
    ensures WholeHz(fin, s) >= 0
  {
    var a, b, c := s.nr as real, s.nf as real, s.od as real;
    NotNegative(fin as real, a);
    var x := fin as real / a;
    assert x * b >= 0.0;
    NotNegative(x * b, c);
  }

  lemma NotNegative(x: real, y: real)
    requires x >= 0.0 && y > 0.0
    ensures x / y >= 0.0
  {
  }

  lemma RunsAtLeast(fin: nat, s: Setting)
    requires s.nr > 0 && s.nf > 0 && 1 <= s.od <= NO_MAX && VCO_MIN <= fin as real / s.nr as real * s.nf as real
    ensures WholeHz(fin, s) >= 21875000
  {
    AtLeast(fin as real / s.nr as real * s.nf as real, s.od as real);
  }

  lemma AtLeast(x: real, od: real)
    requires x >= VCO_MIN && 1.0 <= od <= 16.0
    ensures x / od >= 21875000.0
  {
    var q := x / od;
    assert q * od == x;
    SignOfFactor(q - 21875000.0, od);
  }

  lemma SignOfFactor(x: real, y: real)
    requires x * y >= 0.0 && y > 0.0
    ensures x >= 0.0
  {
  }

  class Sysctl {
    var pll0: Register
    var pll1: Register
    var pll2: Register

    function RegisterOf(pll: Name): Register
      reads this
    {
      match pll
      case Pll0 => pll0
      case Pll1 => pll1
      case Pll2 => pll2
    }

    /** sysctl_clock_source_get_freq, for the sources a PLL can have. */
    function SourceFreq(source: Source): nat
      reads this
    {
      match source
      case FromIn0 => FREQ_IN0
      case FromPll0 => DecodedFreq(FREQ_IN0, pll0)
      case FromPll1 => DecodedFreq(FREQ_IN0, pll1)
      case _ => 0
    }

    static function DecodedFreq(fin: nat, r: Register): nat {
      WholeHzPositive(fin, SettingIn(r));
      WholeHz(fin, SettingIn(r))
    }

    /** sysctl_pll_get_freq. */
    function PllGetFreq(pll: Name): nat
      reads this
    {
      if pll != Pll2 then DecodedFreq(FREQ_IN0, RegisterOf(pll))
      else
        match SelectedSource(pll2.select)
        case Some(source) => DecodedFreq(SourceFreq(source), pll2)
        case None => 0
    }

    /** The frequency of a PLL from its register fields, its source and the crystal of 26 MHz. */
    lemma FreqOfFields(pll: Name)
      ensures SourceFreq(FromIn0) == 26000000
      ensures SourceFreq(FromPll0) == PllGetFreq(Pll0) && SourceFreq(FromPll1) == PllGetFreq(Pll1)
      ensures var r := RegisterOf(pll);
              var fin := if pll != Pll2 || r.select == 0 then 26000000
                         else if r.select == 1 then PllGetFreq(Pll0) else PllGetFreq(Pll1);
              PllGetFreq(pll) == if pll == Pll2 && r.select == 3 then 0
                else Output(fin as real, Setting(r.clkr + 1, r.clkf + 1, r.clkod + 1, r.bwadj + 1)).Floor
    {
      hide Output;
    }

    /** May the PLL run from this source? */
    static predicate Allowed(pll: Name, source: Source) {
      if pll == Pll2 then SelectCode(source).Some? else source == FromIn0
    }

    /** Writes a setting, and for PLL2 its source; every value fits its field. */
    method WriteSetting(pll: Name, source: Source, s: Setting)
      requires Allowed(pll, source)
      requires 1 <= s.nr <= NR_MAX && 1 <= s.nf <= NF_MAX && 1 <= s.od <= NO_MAX && s.nb == s.nf
      modifies this
      ensures var r := RegisterOf(pll);
              r.clkr == s.nr - 1 && r.clkf == s.nf - 1 && r.clkod == s.od - 1 && r.bwadj == s.nb - 1
      ensures SettingIn(RegisterOf(pll)) == s && RegisterOf(pll).others == old(RegisterOf(pll)).others
      ensures RegisterOf(pll).select == if pll == Pll2 then SelectCode(source).value else old(RegisterOf(pll)).select
      ensures forall other :: other != pll ==> RegisterOf(other) == old(RegisterOf(other))
      ensures PllGetFreq(pll) == DecodedFreq(old(SourceFreq(source)), RegisterOf(pll))
    {
      hide Output;
      SelectorRoundTrip(source, if pll == Pll2 then SelectCode(source).value else 0);
      var r := RegisterOf(pll).(clkr := s.nr - 1, clkf := s.nf - 1, clkod := s.od - 1, bwadj := s.nb - 1);
      match pll {
        case Pll0 => pll0 := r;
        case Pll1 => pll1 := r;
        case Pll2 => pll2 := r.(select := SelectCode(source).value);
      }
    }

    /** May this PLL run from this source, and is the source running? */
    predicate CanRun(pll: Name, source: Source)
      reads this
    {
      Allowed(pll, source) && SourceFreq(source) > 0
    }

    /**
      sysctl_pll_source_set_freq. It returns 0 and changes nothing, or it writes a setting in all the ranges;
      then the PLL runs within 1/64 of the frequency asked for, and the result is that in whole Hz.
    */
    method PllSourceSetFreq(pll: Name, source: Source, freq: nat, rint: real -> int) returns (result: nat)
      requires 0 < freq <= 1750000000
      modifies this
      ensures result == 0 ==> forall name :: RegisterOf(name) == old(RegisterOf(name))
      ensures result != 0 ==>
                var fin, s := old(SourceFreq(source)), SettingIn(RegisterOf(pll));
                && old(CanRun(pll, source))
                && InRanges(fin as real, s)
                && Abs(Output(fin as real, s) - freq as real) < freq as real / 64.0
                && ClosestOutput(fin as real, freq, rint, s)
                && (NoNearTies(fin as real, freq, rint) ==> BestOutput(fin as real, freq, rint, s))
                && result == WholeHz(fin, s) == PllGetFreq(pll)
      ensures result != 0 ==>
                && RegisterOf(pll).others == old(RegisterOf(pll)).others
                && forall other :: other != pll ==> RegisterOf(other) == old(RegisterOf(other))
      ensures old(CanRun(pll, source)) ==>
                var outcome := Outcome(old(SourceFreq(source)) as real, freq, rint);
                (result != 0 <==> outcome.Some?) && (result != 0 ==> SettingIn(RegisterOf(pll)) == outcome.value)
      ensures old(CanRun(pll, source)) && !AnySetting(old(SourceFreq(source)) as real, freq, rint) ==> result == 0
      ensures old(CanRun(pll, source)) && NoBorderline(old(SourceFreq(source)) as real, freq, rint) ==>
                (result != 0 <==> AnySetting(old(SourceFreq(source)) as real, freq, rint))
    {
      hide AnySetting, Outcome, NoBorderline, Output, InRanges, ClosestOutput, BestOutput, NoNearTies;
      if !Allowed(pll, source) {
        return 0;
      }
      var freqIn := SourceFreq(source);
      if freqIn == 0 {
        return 0;
      }
      var s := FindSetting(freqIn as real, freq, rint);
      if s.None? {
        return 0;
      }
      SettingsRun(freqIn, s.value);
      WriteSetting(pll, source, s.value);
      result := PllGetFreq(pll);
    }
  }

  /** Is there any feedback divider that the search can take? */
  predicate AnySetting(fin: real, freq: nat, rint: real -> int)
    requires fin > 0.0 && 0 < freq <= 1750000000
  {
    SomeViable(fin, freq, rint, FirstDivider(fin, freq), NF_MAX)
  }

  /** The setting chosen, if its error passes the last check. */
  function Outcome(fin: real, freq: nat, rint: real -> int): Option<Setting>
    requires fin > 0.0 && 0 < freq <= 1750000000
  {
    var choice := Chosen(fin, freq, rint, FirstDivider(fin, freq), NF_MAX);
    if choice.found && Abs(choice.err) < TERR * (1.0 - SLACK) then Some(choice.best) else None
  }

  /** The error of a candidate is how far off its output is, relative to the frequency asked for. */
  lemma ErrorIsDistance(fin: real, freq: nat, rint: real -> int, i: nat, s: Setting, err: real)
    requires fin > 0.0 && 0 < freq <= 1750000000 && ComesFrom(fin, freq, rint, i, s, err)
    ensures s.nr > 0 && s.od > 0 && Abs(Output(fin, s) - freq as real) == freq as real * Abs(err)
  {
    hide At, Numerator, MostDivider, Passes, Output, RelativeError;
    CandidateIsScaled(fin, freq, i, rint);
    OutputFromError(fin, freq, i, Numerator(fin, freq, i, rint), s);
    SizeOfProduct(freq as real, err);
  }

  lemma SizeOfProduct(x: real, y: real)
    requires x > 0.0
    ensures Abs(-x * y) == x * Abs(y)
  {
    assert y >= 0.0 ==> x * y >= 0.0;
    assert y < 0.0 ==> x * -y > 0.0;
  }

  /** No candidate gives a frequency closer to the one asked for, but for the slack. */
  ghost predicate ClosestOutput(fin: real, freq: nat, rint: real -> int, best: Setting)
    requires fin > 0.0 && 0 < freq <= 1750000000 && best.nr > 0 && best.od > 0
  {
    forall i: nat, s, err :: Competes(fin, freq, rint, best, i, s, err) ==>
      s.nr > 0 && s.od > 0 && Abs(Output(fin, best) - freq as real)
                           <= (Abs(Output(fin, s) - freq as real) + freq as real * NO_ERROR) * DRIFT
  }

  /** No candidate gives a closer frequency, or one as close with a larger output divider. */
  ghost predicate BestOutput(fin: real, freq: nat, rint: real -> int, best: Setting)
    requires fin > 0.0 && 0 < freq <= 1750000000 && best.nr > 0 && best.od > 0
  {
    forall i: nat, s, err :: Competes(fin, freq, rint, best, i, s, err) ==>
      && s.nr > 0 && s.od > 0
      && Abs(Output(fin, best) - freq as real) <= Abs(Output(fin, s) - freq as real)
      && (Abs(Output(fin, best) - freq as real) == Abs(Output(fin, s) - freq as real) ==> best.od >= s.od)
  }

  lemma Times(x: real, a: real, b: real)
    requires x > 0.0 && a <= b
    ensures x * a <= x * b
    ensures x * a == x * b ==> a == b
  {
    assert x * (b - a) >= 0.0;
  }

  lemma FoundIsClosest(fin: real, freq: nat, rint: real -> int, best: Setting, bestErr: real)
    requires fin > 0.0 && 0 < freq <= 1750000000
    requires IsCandidate(fin, freq, rint, best, bestErr) && NoneCloser(fin, freq, rint, best, bestErr)
    ensures best.nr > 0 && best.od > 0 && ClosestOutput(fin, freq, rint, best)
    ensures NoneBetter(fin, freq, rint, best, bestErr) ==> BestOutput(fin, freq, rint, best)
  {
    hide ComesFrom, SomeViable, FirstDivider, Abs, Eligible, Output;
    var j: nat :| Competes(fin, freq, rint, best, j, best, bestErr);
    ErrorIsDistance(fin, freq, rint, j, best, bestErr);
    forall i: nat, s, err | Competes(fin, freq, rint, best, i, s, err)
      ensures s.nr > 0 && s.od > 0
      ensures Abs(Output(fin, best) - freq as real) <= (Abs(Output(fin, s) - freq as real) + freq as real * NO_ERROR) * DRIFT
      ensures NoneBetter(fin, freq, rint, best, bestErr) ==>
                && Abs(Output(fin, best) - freq as real) <= Abs(Output(fin, s) - freq as real)
                && (Abs(Output(fin, best) - freq as real) == Abs(Output(fin, s) - freq as real) ==> best.od >= s.od)
    {
      ErrorIsDistance(fin, freq, rint, i, s, err);
      Times(freq as real, Abs(bestErr), (Abs(err) + NO_ERROR) * DRIFT);
      assert freq as real * ((Abs(err) + NO_ERROR) * DRIFT) == (freq as real * Abs(err) + freq as real * NO_ERROR) * DRIFT;
      if NoneBetter(fin, freq, rint, best, bestErr) {
        Times(freq as real, Abs(bestErr), Abs(err));
      }
    }
  }

  /** The search and the last check of the error. */
  method FindSetting(fin: real, freq: nat, rint: real -> int) returns (s: Option<Setting>)
    requires fin > 0.0 && 0 < freq <= 1750000000
    ensures s == Outcome(fin, freq, rint)
    ensures s.Some? ==> AnySetting(fin, freq, rint)
    ensures AnySetting(fin, freq, rint) && NoBorderline(fin, freq, rint) ==> s.Some?
    ensures s.Some? ==>
              && InRanges(fin, s.value)
              && Abs(Output(fin, s.value) - freq as real) < freq as real / 64.0
              && ClosestOutput(fin, freq, rint, s.value)
              && (NoNearTies(fin, freq, rint) ==> BestOutput(fin, freq, rint, s.value))
  {
    hide Chosen, ComesFrom, SomeViable, FirstDivider, NoBorderline, Output, IsCandidate, NoneCloser, NoneBetter,
         NoNearTies, ClosestOutput, BestOutput, NrAtMostFirst;
    var found, best, err := Search(fin, freq, rint);
    if !found || Abs(err) >= TERR * (1.0 - SLACK) {
      return None;
    }
    FoundIsSound(fin, freq, rint, best, err);
    FoundIsClosest(fin, freq, rint, best, err);
    s := Some(best);
  }

  /** A setting in the ranges never gives 0 Hz. */
  lemma SettingsRun(fin: nat, s: Setting)
    requires InRanges(fin as real, s)
    ensures 1 <= s.nr <= NR_MAX && 1 <= s.nf <= NF_MAX && 1 <= s.od <= NO_MAX && s.nb == s.nf
    ensures WholeHz(fin, s) > 0
  {
    RunsAtLeast(fin, s);
  }

  lemma FoundIsSound(fin: real, freq: nat, rint: real -> int, s: Setting, err: real)
    requires fin > 0.0 && 0 < freq <= 1750000000 && Abs(err) < TERR
    requires IsCandidate(fin, freq, rint, s, err)
    ensures InRanges(fin, s) && Abs(Output(fin, s) - freq as real) < freq as real / 64.0
  {
    hide InRanges, Output, At, Numerator, RelativeError, SomeViable, FirstDivider, Eligible;
    var i: nat :| Competes(fin, freq, rint, s, i, s, err);
    CandidateIsSound(fin, freq, i, rint);
  }
}
