/**
 Repeating "check, exchange the arguments of one reported pair": what each swap gains, and how many
 swaps that leaves for a run.
 */
module Repair {
  import opened Wrappers
  import opened PairEnumeration
  import opened UsageStatistics
  import opened CallSites
  import opened PairChecks
  import opened PairProperties
  import opened SwappedArgChecker
  import opened SiteProperties
  import opened Exchanges

  // ------------------------------------------------------------------------------------------
  // Sums over the positions of a call site
  // ------------------------------------------------------------------------------------------

  ghost function SumTo(f: nat -> nat, n: nat): nat {
    if n == 0 then 0 else SumTo(f, n - 1) + f(n - 1)
  }

  lemma {:induction false} SumAtMost(f: nat -> nat, g: nat -> nat, n: nat)
    requires forall k: nat :: k < n ==> f(k) <= g(k)
    ensures SumTo(f, n) <= SumTo(g, n)
  {
    if n > 0 {
      SumAtMost(f, g, n - 1);
    }
  }

  lemma {:induction false} SumOfOnes(f: nat -> nat, n: nat)
    requires forall k: nat :: k < n ==> f(k) <= 1
    ensures SumTo(f, n) <= n
  {
    if n > 0 {
      SumOfOnes(f, n - 1);
    }
  }

  lemma {:induction false} SumChangedOnce(f: nat -> nat, g: nat -> nat, n: nat, i: nat)
    requires forall k: nat :: k < n && k != i ==> f(k) == g(k)
    ensures SumTo(g, n) + (if i < n then f(i) else 0) == SumTo(f, n) + (if i < n then g(i) else 0)
  {
    if n > 0 {
      SumChangedOnce(f, g, n - 1, i);
    }
  }

  /** Two sums whose terms differ at two places differ by the differences there. */
  lemma {:induction false} SumChangedTwice(f: nat -> nat, g: nat -> nat, n: nat, i: nat, j: nat)
    requires i < j < n
    requires forall k: nat :: k < n && k != i && k != j ==> f(k) == g(k)
    ensures SumTo(g, n) + f(i) + f(j) == SumTo(f, n) + g(i) + g(j)
  {
    if j == n - 1 {
      SumChangedOnce(f, g, n - 1, i);
    } else {
      SumChangedTwice(f, g, n - 1, i, j);
    }
  }

  // ------------------------------------------------------------------------------------------
  // What a swap gains
  // ------------------------------------------------------------------------------------------

  /** Thresholds with which no swap leaves fewer positions settled. */
  predicate Settling(opts: CheckerConfiguration) {
    CoverLasts(opts)
    && opts.statsSwappedFitnessThreshold >= 0.5
    && (CoverCanReport(opts) ==>
          opts.coverSwappedStatsVettingThreshold < 1.0 || opts.statsSwappedFitnessThreshold >= 1.0)
  }

  ghost predicate Tuned(ck: Checker) {
    Settling(ck.opts) && PromisesKept(ck)
  }

  lemma DefaultsAreTuned(stats: Option<Table>)
    requires stats.Some? ==> Normalised(stats.value)
    ensures Tuned(Checker(DEFAULT_CONFIGURATION, stats))
  {
  }

  /** Some morpheme of the argument is fit for the position. */
  ghost predicate Settled(ck: Checker, func: string, pos: nat, morphemes: set<string>) {
    ck.stats.Some?
    && exists m :: m in morphemes && Fitness(ck.stats.value, func, pos, m) > ck.opts.statsSwappedFitnessThreshold
  }

  /** A statistics report settles both positions, and neither was settled before. */
  lemma StatsReportSettles(ck: Checker, v: PairView)
    requires ck.stats.Some? && Normalised(ck.stats.value) && ck.opts.statsSwappedFitnessThreshold >= 0.5
    requires StatsVerdict(ck.stats.value, ck.opts, v).Report?
    ensures !Settled(ck, v.func, v.i, v.a1) && !Settled(ck, v.func, v.j, v.a2)
    ensures Settled(ck, v.func, v.i, v.a2) && Settled(ck, v.func, v.j, v.a1)
  {
    var t, bound := ck.stats.value, ck.opts.statsSwappedFitnessThreshold;
    var m1, m2 := StatsReportMeaning(t, ck.opts, v);
    assert m2 in v.a2 && m1 in v.a1;
    if m :| m in v.a1 && Fitness(t, v.func, v.i, m) > bound {
      AtMostOneFit(t, v.func, v.i, bound, m, m2);
    }
    if m :| m in v.a2 && Fitness(t, v.func, v.j, m) > bound {
      AtMostOneFit(t, v.func, v.j, bound, m, m1);
    }
  }

  ghost function Indicator(b: bool): nat {
    if b then 1 else 0
  }

  /** A morpheme that the vetting lets pass from a position it is fit for is fit for the other one too,
      so that it settles the position it comes to, which was not settled before. */
  lemma PassedMorphemeStaysFit(ck: Checker, v: PairView, m: string)
    requires Tuned(ck) && CoverCanReport(ck.opts) && ck.stats.Some? && !Suppressed(ck, v)
    requires m in v.a1 - v.a2
    requires Fitness(ck.stats.value, v.func, v.i, m) > ck.opts.statsSwappedFitnessThreshold
    ensures Settled(ck, v.func, v.j, v.a1) && !Settled(ck, v.func, v.j, v.a2)
  {
    var t, bound := ck.stats.value, ck.opts.statsSwappedFitnessThreshold;
    SuppressedIff(ck, v);
    FitnessInUnitRange(t, v.func, v.i, m);
    if Fitness(t, v.func, v.j, m) <= bound {
      FitOnlyHere(t, v.func, m, v.i, v.j, bound);
      assert ConfidenceExceeds(t, v.func, m, v.i, v.j, ck.opts.coverSwappedStatsVettingThreshold);
    }
    if n :| n in v.a2 && Fitness(t, v.func, v.j, n) > bound {
      AtMostOneFit(t, v.func, v.j, bound, m, n);
    }
  }

  /** The same pair seen from its second argument. */
  ghost function Mirrored(v: PairView): PairView {
    v.(i := v.j, j := v.i, a1 := v.a2, a2 := v.a1)
  }

  lemma MirroredIsSuppressedAlike(ck: Checker, v: PairView)
    ensures Suppressed(ck, Mirrored(v)) == Suppressed(ck, v)
  {
    SuppressedIff(ck, v);
    SuppressedIff(ck, Mirrored(v));
  }

  /** What unsettles the first position settles the second. */
  lemma UnsettledMovesOn(ck: Checker, v: PairView)
    requires Tuned(ck) && CoverCanReport(ck.opts) && !Suppressed(ck, v)
    requires Settled(ck, v.func, v.i, v.a1) && !Settled(ck, v.func, v.i, v.a2)
    ensures Settled(ck, v.func, v.j, v.a1) && !Settled(ck, v.func, v.j, v.a2)
  {
    var m :| m in v.a1 && Fitness(ck.stats.value, v.func, v.i, m) > ck.opts.statsSwappedFitnessThreshold;
    assert m !in v.a2;
    PassedMorphemeStaysFit(ck, v, m);
  }

  /** A cover report that the statistics let pass settles no fewer of the two positions. */
  lemma CoverReportKeepsSettled(ck: Checker, v: PairView)
    requires Tuned(ck) && CoverCanReport(ck.opts) && !Suppressed(ck, v)
    ensures Indicator(Settled(ck, v.func, v.i, v.a1)) + Indicator(Settled(ck, v.func, v.j, v.a2)) <=
            Indicator(Settled(ck, v.func, v.i, v.a2)) + Indicator(Settled(ck, v.func, v.j, v.a1))
  {
    MirroredIsSuppressedAlike(ck, v);
    hide Suppressed, Settled;
    if Settled(ck, v.func, v.i, v.a1) && !Settled(ck, v.func, v.i, v.a2) {
      UnsettledMovesOn(ck, v);
    }
    if Settled(ck, v.func, v.j, v.a2) && !Settled(ck, v.func, v.j, v.a1) {
      UnsettledMovesOn(ck, Mirrored(v));
    }
  }

  lemma OverlapOnOneSide(a: set<string>, b: set<string>, p: set<string>, q: set<string>)
    requires p - q <= b - a
    ensures |b * p| == |b * (p * q)| + |p - q|
    ensures |a * p| == |a * (p * q)|
  {
    assert b * p == b * (p * q) + (p - q);
    assert a * p == a * (p * q);
  }

  /** Exchanging crossed arguments makes the matching morphemes grow by exactly those that tell the
      parameters apart, which are at least two. */
  lemma CoverSwapGains(v: PairView)
    requires CoverSwap(v)
    ensures |v.a2 * v.p1| + |v.a1 * v.p2| == |v.a1 * v.p1| + |v.a2 * v.p2| + |v.p1 - v.p2| + |v.p2 - v.p1|
    ensures |v.p1 - v.p2| + |v.p2 - v.p1| >= 2
  {
    OverlapOnOneSide(v.a1, v.a2, v.p1, v.p2);
    OverlapOnOneSide(v.a2, v.a1, v.p2, v.p1);
    assert v.p1 * v.p2 == v.p2 * v.p1;
    SubsetOfSameSize(v.p1, v.p2);
  }

  // ------------------------------------------------------------------------------------------
  // The measure
  // ------------------------------------------------------------------------------------------

  ghost function SettledAt(ck: Checker, site: CallSite): nat -> nat {
    (k: nat) => Indicator(Settled(ck, site.callDecl.fullyQualifiedName, k, ArgMorphemes(site, k)))
  }

  ghost function OverlapAt(site: CallSite): nat -> nat {
    (k: nat) => |ArgMorphemes(site, k) * ParamMorphemes(site, k)|
  }

  ghost function ParamSizeAt(site: CallSite): nat -> nat {
    (k: nat) => |ParamMorphemes(site, k)|
  }

  /** How many positions hold an argument that the statistics find fit for it. */
  ghost function SettledCount(ck: Checker, site: CallSite): nat {
    SumTo(SettledAt(ck, site), |site.positionalArgNames|)
  }

  /** How many argument morphemes match the parameter at their position. */
  ghost function Matches(site: CallSite): nat {
    SumTo(OverlapAt(site), |site.positionalArgNames|)
  }

  /** The number of parameter morphemes, which no exchange changes. */
  ghost function ParamTotal(site: CallSite): nat {
    SumTo(ParamSizeAt(site), |site.positionalArgNames|)
  }

  lemma SubsetIsNoLarger<T>(s: set<T>, t: set<T>)
    requires s <= t
    ensures |s| <= |t|
  {
    assert t == s + (t - s);
  }

  lemma MeasuresAreBounded(ck: Checker, site: CallSite)
    ensures SettledCount(ck, site) <= |site.positionalArgNames|
    ensures Matches(site) <= ParamTotal(site)
  {
    forall k: nat
      ensures OverlapAt(site)(k) <= ParamSizeAt(site)(k)
    {
      SubsetIsNoLarger(ArgMorphemes(site, k) * ParamMorphemes(site, k), ParamMorphemes(site, k));
    }
    SumAtMost(OverlapAt(site), ParamSizeAt(site), |site.positionalArgNames|);
    SumOfOnes(SettledAt(ck, site), |site.positionalArgNames|);
  }

  /** The exchange moves the terms of the two positions and leaves the others alone. */
  lemma ExchangeChangesTwoTerms(ck: Checker, site: CallSite, p: Pair)
    requires p.0 < p.1 < |site.positionalArgNames|
    ensures var site' := Exchange(site, p);
            var s, s' := SettledAt(ck, site), SettledAt(ck, site');
            var o, o' := OverlapAt(site), OverlapAt(site');
            && SettledCount(ck, site') + s(p.0) + s(p.1) == SettledCount(ck, site) + s'(p.0) + s'(p.1)
            && Matches(site') + o(p.0) + o(p.1) == Matches(site) + o'(p.0) + o'(p.1)
            && ParamTotal(site') == ParamTotal(site)
  {
    var site' := Exchange(site, p);
    var n := |site.positionalArgNames|;
    forall k: nat | k != p.0 && k != p.1
      ensures ArgMorphemes(site', k) == ArgMorphemes(site, k)
    {
    }
    assert forall k: nat :: ParamMorphemes(site', k) == ParamMorphemes(site, k);
    SumChangedTwice(SettledAt(ck, site), SettledAt(ck, site'), n, p.0, p.1);
    SumChangedTwice(OverlapAt(site), OverlapAt(site'), n, p.0, p.1);
    SumChangedTwice(ParamSizeAt(site), ParamSizeAt(site'), n, p.0, p.1);
  }

  lemma OverlapOfViews(site: CallSite, p: Pair)
    ensures var v := View(site, p.0, p.1);
            OverlapAt(site)(p.0) == |v.a1 * v.p1| && OverlapAt(site)(p.1) == |v.a2 * v.p2|
  {
  }

  /** Applying a cover report gains the distinguishing parameter morphemes, at least two. */
  lemma CoverStepGains(ck: Checker, site: CallSite, p: Pair)
    requires CoverLasts(ck.opts) && p.0 < p.1 < |site.positionalArgNames|
    requires CoverVerdict(ck, View(site, p.0, p.1)).Report?
    ensures var v := View(site, p.0, p.1);
            Matches(Exchange(site, p)) == Matches(site) + |v.p1 - v.p2| + |v.p2 - v.p1| >= Matches(site) + 2
  {
    var v := View(site, p.0, p.1);
    CoverReportNeeds(ck, v);
    CoverReportCrosses(ck, v);
    CoverSwapGains(v);
    ExchangeChangesTwoTerms(ck, site, p);
    ViewOfExchanged(site, p);
    OverlapOfViews(site, p);
    OverlapOfViews(Exchange(site, p), p);
  }

  lemma SettledOfViews(ck: Checker, site: CallSite, p: Pair)
    ensures var v := View(site, p.0, p.1);
            SettledAt(ck, site)(p.0) == Indicator(Settled(ck, v.func, v.i, v.a1))
            && SettledAt(ck, site)(p.1) == Indicator(Settled(ck, v.func, v.j, v.a2))
  {
  }

  /** Applying a statistics report settles two more positions. */
  lemma StatsStepGains(ck: Checker, site: CallSite, p: Pair)
    requires ck.stats.Some? && Normalised(ck.stats.value) && ck.opts.statsSwappedFitnessThreshold >= 0.5
    requires p.0 < p.1 < |site.positionalArgNames| && StatsVerdict(ck.stats.value, ck.opts, View(site, p.0, p.1)).Report?
    ensures SettledCount(ck, Exchange(site, p)) == SettledCount(ck, site) + 2
  {
    StatsReportSettles(ck, View(site, p.0, p.1));
    ExchangeChangesTwoTerms(ck, site, p);
    ViewOfExchanged(site, p);
    SettledOfViews(ck, site, p);
    SettledOfViews(ck, Exchange(site, p), p);
  }

  /** Applying a cover report settles no fewer positions. */
  lemma CoverStepKeepsSettled(ck: Checker, site: CallSite, p: Pair)
    requires Tuned(ck) && p.0 < p.1 < |site.positionalArgNames|
    requires CoverVerdict(ck, View(site, p.0, p.1)).Report?
    ensures SettledCount(ck, Exchange(site, p)) >= SettledCount(ck, site)
  {
    CoverReportNeeds(ck, View(site, p.0, p.1));
    CoverReportCrosses(ck, View(site, p.0, p.1));
    CoverReportKeepsSettled(ck, View(site, p.0, p.1));
    ExchangeChangesTwoTerms(ck, site, p);
    ViewOfExchanged(site, p);
    SettledOfViews(ck, site, p);
    SettledOfViews(ck, Exchange(site, p), p);
  }

  /** What applying any reported swap gains, whichever check reported it and in whichever mode. */
  lemma StepGains(ck: Checker, site: CallSite, mode: Check, p: Pair)
    requires Tuned(ck) && p.0 < p.1 < |site.positionalArgNames|
    requires Verdicts(ck, site, mode)(p).Report?
    ensures var site' := Exchange(site, p);
            || SettledCount(ck, site') == SettledCount(ck, site) + 2
            || (SettledCount(ck, site') >= SettledCount(ck, site) && Matches(site') >= Matches(site) + 2)
  {
    ReportOrigin(ck, View(site, p.0, p.1), mode);
    if CoverVerdict(ck, View(site, p.0, p.1)).Report? {
      CoverStepGains(ck, site, p);
      CoverStepKeepsSettled(ck, site, p);
    } else {
      StatsStepGains(ck, site, p);
    }
  }

  /** `d` positions to settle and `e` matches to gain, where settling outweighs all `w` matches. */
  function Lexicographic(d: nat, e: nat, w: nat): nat {
    d * (w + 2) + 2 * e
  }

  lemma ScaledBound(a: nat, b: nat, c: nat)
    requires a <= b
    ensures a * c <= b * c
  {
  }

  lemma LexicographicDecreases(d: nat, d': nat, e: nat, e': nat, w: nat)
    requires e <= w && e' <= w
    requires d' + 2 <= d || (d' <= d && e' + 2 <= e)
    ensures Lexicographic(d', e', w) + 4 <= Lexicographic(d, e, w)
  {
    if d' + 2 <= d {
      ScaledBound(d', d - 2, w + 2);
      assert (d - 2) * (w + 2) == d * (w + 2) - 2 * (w + 2);
    } else {
      ScaledBound(d', d, w + 2);
    }
  }

  /** How far the call site is from having every position settled and every morpheme matched. */
  ghost function Slack(ck: Checker, site: CallSite): nat {
    MeasuresAreBounded(ck, site);
    Lexicographic(|site.positionalArgNames| - SettledCount(ck, site), ParamTotal(site) - Matches(site), ParamTotal(site))
  }

  /** A bound on the slack by the size of the call site: its arguments and parameter morphemes. */
  ghost function SlackBound(site: CallSite): nat {
    |site.positionalArgNames| * (ParamTotal(site) + 2) + 2 * ParamTotal(site)
  }

  lemma SlackIsBounded(ck: Checker, site: CallSite)
    ensures Slack(ck, site) <= SlackBound(site)
  {
    var n, s, w := |site.positionalArgNames|, SettledCount(ck, site), ParamTotal(site);
    hide SumTo;
    MeasuresAreBounded(ck, site);
    ScaledBound(n - s, n, w + 2);
  }

  // ------------------------------------------------------------------------------------------
  // Runs
  // ------------------------------------------------------------------------------------------

  /** One round: the arguments of some reported pair are exchanged. */
  ghost predicate RepairStep(ck: Checker, mode: Check, site: CallSite, site': CallSite) {
    exists p: Pair :: p.0 < p.1 < |site.positionalArgNames|
                      && Verdicts(ck, site, mode)(p).Report? && site' == Exchange(site, p)
  }

  lemma GainsUseSlack(ck: Checker, site: CallSite, p: Pair)
    requires p.0 < p.1 < |site.positionalArgNames|
    requires || SettledCount(ck, Exchange(site, p)) == SettledCount(ck, site) + 2
             || (SettledCount(ck, Exchange(site, p)) >= SettledCount(ck, site)
                 && Matches(Exchange(site, p)) >= Matches(site) + 2)
    ensures Slack(ck, Exchange(site, p)) + 4 <= Slack(ck, site)
  {
    hide SumTo, Lexicographic, ArgMorphemes, ParamMorphemes;
    var site' := Exchange(site, p);
    MeasuresAreBounded(ck, site);
    MeasuresAreBounded(ck, site');
    ExchangeChangesTwoTerms(ck, site, p);
    var n, w := |site.positionalArgNames|, ParamTotal(site);
    LexicographicDecreases(n - SettledCount(ck, site), n - SettledCount(ck, site'), w - Matches(site), w - Matches(site'), w);
  }

  /** Applying any reported swap, of either check and in any mode, uses up slack. */
  lemma StepUsesSlack(ck: Checker, mode: Check, site: CallSite, site': CallSite)
    requires Tuned(ck) && RepairStep(ck, mode, site, site')
    ensures Slack(ck, site') + 4 <= Slack(ck, site)
  {
    var p: Pair :| p.0 < p.1 < |site.positionalArgNames|
                   && Verdicts(ck, site, mode)(p).Report? && site' == Exchange(site, p);
    StepGains(ck, site, mode, p);
    GainsUseSlack(ck, site, p);
  }

  /** With the cover check alone each swap gains two matches, with statistics or without. */
  lemma CoverStepUsesMatches(ck: Checker, site: CallSite, site': CallSite)
    requires CoverLasts(ck.opts) && RepairStep(ck, CoverBased, site, site')
    ensures ParamTotal(site') - Matches(site') + 2 <= ParamTotal(site) - Matches(site)
  {
    var p: Pair :| p.0 < p.1 < |site.positionalArgNames|
                   && Verdicts(ck, site, CoverBased)(p).Report? && site' == Exchange(site, p);
    ReportOrigin(ck, View(site, p.0, p.1), CoverBased);
    CoverStepGains(ck, site, p);
    ExchangeChangesTwoTerms(ck, site, p);
  }

  ghost predicate StepAt(ck: Checker, mode: Check, run: seq<CallSite>, k: int) {
    0 < k < |run| && RepairStep(ck, mode, run[k - 1], run[k])
  }

  /** Any sequence of rounds, with any choice among the reports in each. */
  ghost predicate RepairRun(ck: Checker, mode: Check, run: seq<CallSite>) {
    run != [] && forall k :: 0 < k < |run| ==> StepAt(ck, mode, run, k)
  }

  lemma {:induction false} RunUsesSlack(ck: Checker, mode: Check, run: seq<CallSite>, a: nat, b: nat)
    requires Tuned(ck) && RepairRun(ck, mode, run) && a <= b < |run|
    ensures Slack(ck, run[b]) + 4 * (b - a) <= Slack(ck, run[a])
  {
    hide Slack, RepairStep;
    if a < b {
      RunUsesSlack(ck, mode, run, a, b - 1);
      assert StepAt(ck, mode, run, b);
      StepUsesSlack(ck, mode, run[b - 1], run[b]);
    }
  }

  /** With tuned thresholds every run in every mode is bounded by the size of the call site. */
  lemma TunedRunIsBounded(ck: Checker, mode: Check, run: seq<CallSite>)
    requires Tuned(ck) && RepairRun(ck, mode, run)
    ensures 4 * (|run| - 1) <= SlackBound(run[0])
  {
    RunUsesSlack(ck, mode, run, 0, |run| - 1);
    SlackIsBounded(ck, run[0]);
  }

  lemma {:induction false} CoverRunUsesMatches(ck: Checker, run: seq<CallSite>, b: nat)
    requires CoverLasts(ck.opts) && RepairRun(ck, CoverBased, run) && b < |run|
    ensures ParamTotal(run[b]) - Matches(run[b]) + 2 * b <= ParamTotal(run[0]) - Matches(run[0])
  {
    hide ParamTotal, Matches, RepairStep;
    if 0 < b {
      CoverRunUsesMatches(ck, run, b - 1);
      assert StepAt(ck, CoverBased, run, b);
      CoverStepUsesMatches(ck, run[b - 1], run[b]);
    }
  }

  /** Cover-only repair stops after at most half as many swaps as there are parameter morphemes. */
  lemma CoverRunIsBounded(ck: Checker, run: seq<CallSite>)
    requires CoverLasts(ck.opts) && RepairRun(ck, CoverBased, run)
    ensures 2 * (|run| - 1) <= ParamTotal(run[0]) - Matches(run[0])
  {
    CoverRunUsesMatches(ck, run, |run| - 1);
    MeasuresAreBounded(ck, run[|run| - 1]);
  }

  lemma StatsStepUsesPositions(ck: Checker, site: CallSite, site': CallSite)
    requires PromisesKept(ck) && ck.opts.statsSwappedFitnessThreshold >= 0.5
    requires RepairStep(ck, StatsBased, site, site')
    ensures SettledCount(ck, site') == SettledCount(ck, site) + 2
    ensures |site'.positionalArgNames| == |site.positionalArgNames|
  {
    hide SettledCount, VerdictOf, StatsVerdict, CoverVerdict;
    var p: Pair :| p.0 < p.1 < |site.positionalArgNames|
                   && Verdicts(ck, site, StatsBased)(p).Report? && site' == Exchange(site, p);
    ReportOrigin(ck, View(site, p.0, p.1), StatsBased);
    StatsStepGains(ck, site, p);
  }

  lemma {:induction false} StatsRunUsesPositions(ck: Checker, run: seq<CallSite>, b: nat)
    requires PromisesKept(ck) && ck.opts.statsSwappedFitnessThreshold >= 0.5
    requires RepairRun(ck, StatsBased, run) && b < |run|
    ensures SettledCount(ck, run[b]) == SettledCount(ck, run[0]) + 2 * b
    ensures |run[b].positionalArgNames| == |run[0].positionalArgNames|
  {
    hide SettledCount, RepairStep;
    if 0 < b {
      StatsRunUsesPositions(ck, run, b - 1);
      assert StepAt(ck, StatsBased, run, b);
      StatsStepUsesPositions(ck, run[b - 1], run[b]);
    }
  }

  /** Repair by the statistics check settles two positions with every swap, so that it stops after at
      most half as many swaps as there are arguments. */
  lemma StatsRunIsBounded(ck: Checker, run: seq<CallSite>)
    requires PromisesKept(ck) && ck.opts.statsSwappedFitnessThreshold >= 0.5
    requires RepairRun(ck, StatsBased, run)
    ensures 2 * (|run| - 1) <= |run[0].positionalArgNames| - SettledCount(ck, run[0])
  {
    StatsRunUsesPositions(ck, run, |run| - 1);
    MeasuresAreBounded(ck, run[|run| - 1]);
  }

  // ------------------------------------------------------------------------------------------
  // The repair loop
  // ------------------------------------------------------------------------------------------

  lemma ExchangeKeepsSafeNames(args: seq<seq<string>>, i: nat, j: nat)
    requires SafeNames(args) && i < |args| && j < |args|
    ensures SafeNames(Swapped(args, i, j))
  {
  }

  lemma ReportIsStep(ck: Checker, site: CallSite, mode: Check, r: SwapResult)
    requires SiteOutcome(ck, site, mode).Completed? && r in SiteOutcome(ck, site, mode).results
    ensures 1 <= r.arg1 < r.arg2 <= |site.positionalArgNames|
    ensures RepairStep(ck, mode, site, Exchange(site, PairOf(r)))
  {
    OutcomeMeaning(ck, site, mode);
    assert Verdicts(ck, site, mode)(PairOf(r)).Report?;
  }

  lemma StepHasResult(ck: Checker, mode: Check, site: CallSite, site': CallSite) returns (r: SwapResult)
    requires SiteOutcome(ck, site, mode).Completed? && RepairStep(ck, mode, site, site')
    ensures r in SiteOutcome(ck, site, mode).results
    ensures 1 <= r.arg1 < r.arg2 <= |site.positionalArgNames| && site' == Exchange(site, (r.arg1 - 1, r.arg2 - 1))
  {
    hide SiteOutcome, Verdicts, Exchange;
    var p: Pair :| p.0 < p.1 < |site.positionalArgNames|
                   && Verdicts(ck, site, mode)(p).Report? && site' == Exchange(site, p);
    OutcomeMeaning(ck, site, mode);
    VerdictsNameTheirPair(ck, site, mode);
    r := Verdicts(ck, site, mode)(p).result;
  }

  /** Where the checker completes, a round acts on one of its results. */
  lemma StepActsOnResult(ck: Checker, mode: Check, site: CallSite, site': CallSite)
    requires SiteOutcome(ck, site, mode).Completed?
    ensures RepairStep(ck, mode, site, site') <==>
            exists r :: r in SiteOutcome(ck, site, mode).results
                        && 1 <= r.arg1 < r.arg2 <= |site.positionalArgNames| && site' == Exchange(site, (r.arg1 - 1, r.arg2 - 1))
  {
    hide SiteOutcome, RepairStep, Exchange;
    if RepairStep(ck, mode, site, site') {
      var r := StepHasResult(ck, mode, site, site');
    }
    forall r | r in SiteOutcome(ck, site, mode).results
      ensures 1 <= r.arg1 < r.arg2 <= |site.positionalArgNames| && RepairStep(ck, mode, site, Exchange(site, (r.arg1 - 1, r.arg2 - 1)))
    {
      ReportIsStep(ck, site, mode, r);
    }
  }

  lemma RunExtends(ck: Checker, mode: Check, run: seq<CallSite>, site: CallSite)
    requires RepairRun(ck, mode, run) && RepairStep(ck, mode, run[|run| - 1], site)
    ensures RepairRun(ck, mode, run + [site])
  {
    hide RepairStep;
    var run' := run + [site];
    forall k | 0 < k < |run'|
      ensures StepAt(ck, mode, run', k)
    {
      assert k < |run| ==> StepAt(ck, mode, run, k);
    }
  }

  /** Checks the call site and exchanges the arguments of an arbitrary report, if there is one. */
  method RepairRound(ck: Checker, callDecl: CallDeclDescriptor, args: array<seq<string>>, mode: Check)
    returns (repaired: bool)
    requires SafeNames(args[..]) && args.Length <= NOT_FOUND
    modifies args
    ensures SafeNames(args[..]) && multiset(args[..]) == old(multiset(args[..]))
    ensures repaired ==> RepairStep(ck, mode, CallSite(callDecl, old(args[..])), CallSite(callDecl, args[..]))
    ensures !repaired ==> args[..] == old(args[..]) && SiteOutcome(ck, CallSite(callDecl, args[..]), mode) == Completed([])
  {
    hide SiteOutcome, RepairStep, SafeNames, Swapped;
    var site := CallSite(callDecl, args[..]);
    SafeNamesRunsAreDefined(ck, site, mode);
    var outcome := CheckSite(ck, site, mode);
    if outcome.results == [] {
      return false;
    }
    var choice: nat :| choice < |outcome.results|;
    var r := outcome.results[choice];
    ReportIsStep(ck, site, mode, r);
    var i, j := r.arg1 - 1, r.arg2 - 1;
    ExchangeKeepsSafeNames(args[..], i, j);
    ExchangeInPlace(args, i, j);
    return true;
  }
}
