/**
 Acting on a report about arguments i and j by exchanging the two arguments, and what the checks say
 about the same pair afterwards.
 */
module Exchanges {
  import opened PairEnumeration
  import opened UsageStatistics
  import opened CallSites
  import opened PairChecks
  import opened PairProperties
  import opened SwappedArgChecker
  import opened SiteProperties

  function Swapped<T>(s: seq<T>, i: nat, j: nat): seq<T>
    requires i < |s| && j < |s|
  {
    s[i := s[j]][j := s[i]]
  }

  method ExchangeInPlace<T>(args: array<T>, i: nat, j: nat)
    requires i < args.Length && j < args.Length
    modifies args
    ensures args[..] == Swapped(old(args[..]), i, j)
    ensures multiset(args[..]) == old(multiset(args[..]))
  {
    args[i], args[j] := args[j], args[i];
  }

  /** The call site with two of its arguments exchanged. */
  function Exchange(site: CallSite, p: Pair): CallSite
    requires p.0 < p.1 < |site.positionalArgNames|
  {
    site.(positionalArgNames := Swapped(site.positionalArgNames, p.0, p.1))
  }

  /** What the exchange makes of the view of the two arguments. */
  function Crossed(v: PairView): PairView {
    v.(last1 := v.last2, last2 := v.last1, a1 := v.a2, a2 := v.a1)
  }

  lemma ViewOfExchanged(site: CallSite, p: Pair)
    requires p.0 < p.1 < |site.positionalArgNames|
    ensures View(Exchange(site, p), p.0, p.1) == Crossed(View(site, p.0, p.1))
  {
  }

  // ------------------------------------------------------------------------------------------
  // Thresholds under which fixes last
  // ------------------------------------------------------------------------------------------

  /** The statistics, if there are any, are as the database promises. */
  ghost predicate PromisesKept(ck: Checker) {
    ck.stats.Some? ==> Normalised(ck.stats.value)
  }

  /** Match scores are 0 or 1, so with other thresholds the cover check never reports. */
  predicate CoverCanReport(opts: CheckerConfiguration) {
    opts.existingMorphemeMatchMax >= 0.0 && opts.swappedMorphemeMatchMin <= 1.0
  }

  /** The cover check does not contradict itself: it asks for some match after the exchange. */
  predicate CoverLasts(opts: CheckerConfiguration) {
    CoverCanReport(opts) ==> opts.swappedMorphemeMatchMin > 0.0
  }

  /** The statistics check does not contradict itself. */
  predicate StatsLasts(opts: CheckerConfiguration) {
    opts.statsSwappedMorphemeThreshold >= 1.0 || opts.statsSwappedFitnessThreshold >= 0.5
  }

  /** Neither check contradicts the other: the vetting recognises every statistics report. */
  predicate VettingLasts(opts: CheckerConfiguration) {
    var confidence, fitness := opts.statsSwappedMorphemeThreshold, opts.statsSwappedFitnessThreshold;
    var vetting := opts.coverSwappedStatsVettingThreshold;
    if confidence < 1.0 then vetting < 1.0 || fitness >= 1.0
    else vetting <= confidence || vetting <= fitness * (1.0 + vetting)
  }

  /** The thresholds with which no fix is ever undone. */
  predicate Lasting(opts: CheckerConfiguration) {
    CoverLasts(opts) && StatsLasts(opts) && (CoverCanReport(opts) ==> VettingLasts(opts))
  }

  lemma CoverReportNeeds(ck: Checker, v: PairView)
    requires CoverVerdict(ck, v).Report?
    ensures CoverCanReport(ck.opts)
  {
  }

  // ------------------------------------------------------------------------------------------
  // A fix is never undone
  // ------------------------------------------------------------------------------------------

  lemma CoverThenCover(ck: Checker, v: PairView)
    requires CoverLasts(ck.opts)
    requires CoverVerdict(ck, v).Report?
    ensures !CoverVerdict(ck, Crossed(v)).Report?
  {
    CoverReportNeeds(ck, v);
    CoverReportCrosses(ck, v);
    if CoverVerdict(ck, Crossed(v)).Report? {
      CoverReportCrosses(ck, Crossed(v));
    }
  }

  /** A morpheme that is fit at one position only is at home there: its confidence is at least 1. */
  lemma FitOnlyHere(t: Table, func: string, m: string, pos: nat, other: nat, bound: real)
    requires UniqueRows(t) && bound >= 0.0
    requires Fitness(t, func, pos, m) > bound >= Fitness(t, func, other, m)
    ensures Confidence(t, func, m, pos, other).Some? && Confidence(t, func, m, pos, other).value >= 1.0
  {
    FitnessIsLookup(t, func, pos, m);
    FitnessIsLookup(t, func, other, m);
    match WeightForMorphemeAtPos(t, func, other, m)
    case None =>
    case Some(there) => QuotientComparedToOne(Fitness(t, func, pos, m), there);
  }

  lemma ScaledByPositive(factor: real, x: real, y: real)
    requires factor > 0.0 && x < y
    ensures factor * x < factor * y
  {
    assert factor * (y - x) > 0.0;
  }

  /** Two fit morphemes leave little weight for one of them at the place of the other. */
  lemma RatioBudget(a: real, b: real, c: real, ratio: real, bound: real)
    requires a > bound && b > bound && ratio > 0.0
    requires a <= ratio * c && b + c <= 1.0
    ensures bound * (1.0 + ratio) < ratio
  {
    ScaledByPositive(ratio, bound, b);
    assert bound * (1.0 + ratio) == bound + ratio * bound;
    assert ratio * (1.0 - (b + c)) >= 0.0;
    assert ratio * (1.0 - (b + c)) == ratio - (ratio * b + ratio * c);
  }

  /** A ratio of weights above 1 that does not exceed the vetting threshold. */
  lemma BoundedRatio(t: Table, func: string, m1: string, m2: string, pos: nat, other: nat, ratio: real, bound: real)
    requires Normalised(t) && m1 != m2 && ratio > 0.0
    requires Fitness(t, func, pos, m1) > bound && Fitness(t, func, other, m2) > bound
    requires var c := Confidence(t, func, m1, pos, other); c.Some? && 1.0 < c.value <= ratio
    ensures bound * (1.0 + ratio) < ratio
  {
    FitnessIsLookup(t, func, pos, m1);
    FitnessIsLookup(t, func, other, m1);
    WeightsOfTwo(MorphemesAndWeightsAtPos(t, func, other), m1, m2);
    var here, there := Fitness(t, func, pos, m1), Fitness(t, func, other, m1);
    assert here / there <= ratio;
    assert (here / there) * there == here;
    assert (here / there) * there <= ratio * there;
    RatioBudget(here, Fitness(t, func, other, m2), there, ratio, bound);
  }

  /** After a statistics report has been acted upon, its morphemes are at home for the vetting. */
  lemma StatsSwapComesHome(t: Table, opts: CheckerConfiguration, v: PairView, m1: string, m2: string)
    requires Normalised(t) && StatsLasts(opts) && VettingLasts(opts)
    requires StatsSwap(t, opts, v, m1, m2)
    ensures AtHome(t, Crossed(v), opts.coverSwappedStatsVettingThreshold)
  {
    var fitness, vetting := opts.statsSwappedFitnessThreshold, opts.coverSwappedStatsVettingThreshold;
    assert m1 in {m1} && m2 in {m2};
    assert m1 in v.a1 - v.a2 && m1 != m2;
    if opts.statsSwappedMorphemeThreshold < 1.0 {
      FitnessInUnitRange(t, v.func, v.j, m1);
      if Fitness(t, v.func, v.i, m1) > fitness {
        AtMostOneFit(t, v.func, v.i, fitness, m1, m2);
      }
      FitOnlyHere(t, v.func, m1, v.j, v.i, fitness);
    } else if !ConfidenceExceeds(t, v.func, m1, v.j, v.i, vetting) {
      BoundedRatio(t, v.func, m1, m2, v.j, v.i, vetting, fitness);
    }
    assert ConfidenceExceeds(t, v.func, m1, v.j, v.i, vetting);
  }

  /** A statistics report makes the vetting suppress the way back. */
  lemma StatsThenCover(ck: Checker, v: PairView)
    requires PromisesKept(ck) && StatsLasts(ck.opts) && VettingLasts(ck.opts)
    requires ck.stats.Some? && StatsVerdict(ck.stats.value, ck.opts, v).Report?
    ensures !CoverVerdict(ck, Crossed(v)).Report?
  {
    var m1, m2 := StatsReportMeaning(ck.stats.value, ck.opts, v);
    StatsSwapComesHome(ck.stats.value, ck.opts, v, m1, m2);
    SuppressedIff(ck, Crossed(v));
  }

  /** The statistics that let the cover check report deny the statistics check the way back. */
  lemma CoverThenStats(ck: Checker, v: PairView)
    requires PromisesKept(ck) && StatsLasts(ck.opts) && VettingLasts(ck.opts)
    requires ck.stats.Some? && !Suppressed(ck, v)
    ensures !StatsVerdict(ck.stats.value, ck.opts, Crossed(v)).Report?
  {
    SuppressedIff(ck, v);
    if StatsVerdict(ck.stats.value, ck.opts, Crossed(v)).Report? {
      var m1, m2 := StatsReportMeaning(ck.stats.value, ck.opts, Crossed(v));
      StatsSwapComesHome(ck.stats.value, ck.opts, Crossed(v), m1, m2);
    }
  }

  /** A morpheme cannot be more at home at each of two positions than at the other. */
  lemma BothWaysAboveOne(t: Table, func: string, m: string, i: nat, j: nat)
    ensures !(ConfidenceExceeds(t, func, m, i, j, 1.0) && ConfidenceExceeds(t, func, m, j, i, 1.0))
  {
    match (WeightForMorphemeAtPos(t, func, i, m), WeightForMorphemeAtPos(t, func, j, m))
    case (Some(x), Some(y)) =>
      QuotientComparedToOne(x, y);
      QuotientComparedToOne(y, x);
    case _ =>
  }

  lemma StatsThenStats(t: Table, opts: CheckerConfiguration, v: PairView)
    requires Normalised(t) && StatsLasts(opts)
    requires StatsVerdict(t, opts, v).Report?
    ensures !StatsVerdict(t, opts, Crossed(v)).Report?
  {
    var m1, m2 := StatsReportMeaning(t, opts, v);
    if StatsVerdict(t, opts, Crossed(v)).Report? {
      var n1, n2 := StatsReportMeaning(t, opts, Crossed(v));
      assert n1 in {n1} && m2 in {m2};
      if opts.statsSwappedMorphemeThreshold >= 1.0 {
        BothWaysAboveOne(t, v.func, m2, v.i, v.j);
      } else {
        AtMostOneFit(t, v.func, v.j, opts.statsSwappedFitnessThreshold, m1, n1);
      }
    }
  }

  lemma CrossedIsNotReported(ck: Checker, v: PairView, first: Check, second: Check)
    requires Lasting(ck.opts) && PromisesKept(ck) && VerdictOf(ck, v, first).Report?
    ensures !VerdictOf(ck, Crossed(v), second).Report?
  {
    ReportOrigin(ck, v, first);
    if VerdictOf(ck, Crossed(v), second).Report? {
      ReportOrigin(ck, Crossed(v), second);
      if CoverVerdict(ck, v).Report? {
        CoverReportNeeds(ck, v);
        CoverReportCrosses(ck, v);
        CoverThenCover(ck, v);
        if ck.stats.Some? {
          CoverThenStats(ck, v);
        }
      } else {
        if CoverVerdict(ck, Crossed(v)).Report? {
          CoverReportNeeds(ck, Crossed(v));
          StatsThenCover(ck, v);
        }
        StatsThenStats(ck.stats.value, ck.opts, v);
      }
    }
  }

  /** A run reports the pair, and after the exchange another run reports it again. */
  ghost predicate Undone(ck: Checker, site: CallSite, p: Pair, first: Check, second: Check) {
    p.0 < p.1 < |site.positionalArgNames|
    && SiteOutcome(ck, site, first).Completed?
    && ReportsPair(SiteOutcome(ck, site, first).results, p)
    && SiteOutcome(ck, Exchange(site, p), second).Completed?
    && ReportsPair(SiteOutcome(ck, Exchange(site, p), second).results, p)
  }

  /** `Undone` in terms of the verdicts on the pair. */
  lemma UndoneIff(ck: Checker, site: CallSite, p: Pair, first: Check, second: Check)
    requires p.0 < p.1 < |site.positionalArgNames|
    requires SiteOutcome(ck, site, first).Completed? && SiteOutcome(ck, Exchange(site, p), second).Completed?
    ensures Undone(ck, site, p, first, second) <==>
            Verdicts(ck, site, first)(p).Report? && Verdicts(ck, Exchange(site, p), second)(p).Report?
  {
    hide SiteOutcome, Verdicts, ReportsPair;
    ReportsPairIff(ck, site, first, p);
    ReportsPairIff(ck, Exchange(site, p), second, p);
  }

  /**
   After the arguments of any reported pair are exchanged, no mode of the checker reports that
   pair on the new call site, whichever mode reported it before.
   */
  lemma FixIsNeverUndone(ck: Checker, site: CallSite, p: Pair, first: Check, second: Check)
    requires Lasting(ck.opts) && PromisesKept(ck)
    ensures !Undone(ck, site, p, first, second)
  {
    if Undone(ck, site, p, first, second) {
      UndoneIff(ck, site, p, first, second);
      ViewOfExchanged(site, p);
      hide VerdictOf, SiteOutcome, Undone;
      CrossedIsNotReported(ck, View(site, p.0, p.1), first, second);
    }
  }

  // ------------------------------------------------------------------------------------------
  // Arbitrary tables
  // ------------------------------------------------------------------------------------------

  /** Two morphemes that the table finds fit, and confident, at either of two positions. */
  ghost predicate Ambivalent(t: Table, opts: CheckerConfiguration, func: string, i: nat, j: nat, m1: string, m2: string) {
    m1 != m2
    && (forall m, pos: nat, other: nat :: m in {m1, m2} && (pos, other) in {(i, j), (j, i)} ==>
          && ConfidenceExceeds(t, func, m, pos, other, opts.statsSwappedMorphemeThreshold)
          && Fitness(t, func, pos, m) > opts.statsSwappedFitnessThreshold)
  }

  /** On any table, the statistics check undoes its own fix of a pair exactly when the arguments
      differ in two ambivalent morphemes. */
  lemma StatsUndoneIff(t: Table, opts: CheckerConfiguration, v: PairView)
    ensures StatsVerdict(t, opts, v).Report? && StatsVerdict(t, opts, Crossed(v)).Report? <==>
            exists m1, m2 :: v.a1 - v.a2 == {m1} && v.a2 - v.a1 == {m2} && Ambivalent(t, opts, v.func, v.i, v.j, m1, m2)
  {
    if StatsVerdict(t, opts, v).Report? && StatsVerdict(t, opts, Crossed(v)).Report? {
      var m1, m2 := StatsReportMeaning(t, opts, v);
      var n1, n2 := StatsReportMeaning(t, opts, Crossed(v));
      assert n1 in {n1} && n2 in {n2} && m1 in {m1} && m2 in {m2};
      assert n1 in {m2} && n2 in {m1};
      assert Ambivalent(t, opts, v.func, v.i, v.j, m1, m2);
    }
    if m1, m2 :| v.a1 - v.a2 == {m1} && v.a2 - v.a1 == {m2} && Ambivalent(t, opts, v.func, v.i, v.j, m1, m2) {
      assert m1 in {m1, m2} && m2 in {m1, m2};
      assert (v.i, v.j) in {(v.i, v.j), (v.j, v.i)} && (v.j, v.i) in {(v.i, v.j), (v.j, v.i)};
      StatsSwapIsUnique(t, opts, v, m1, m2);
      StatsSwapIsUnique(t, opts, Crossed(v), m2, m1);
    }
  }
}
