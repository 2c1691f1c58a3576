/**
 Repairs with a confidence threshold of 1 or more. Every swap that the statistics ask for then moves
 its morphemes to positions where they weigh more, and a vetting threshold below 1 lets no cover
 report move one to where it weighs less. Ranking the positions of each morpheme by its weight bounds
 every run, whatever the fitness threshold and the table.
 */
module Weighing {
  import opened PairEnumeration
  import opened UsageStatistics
  import opened CallSites
  import opened PairChecks
  import opened PairProperties
  import opened SwappedArgChecker
  import opened Exchanges
  import opened Repair

  // ------------------------------------------------------------------------------------------
  // Sums over sets
  // ------------------------------------------------------------------------------------------

  ghost function SumOver<T(!new)>(f: T -> nat, s: set<T>): nat {
    if s == {} then 0 else var x :| x in s; f(x) + SumOver(f, s - {x})
  }

  lemma {:induction false} SumOverAdded<T(!new)>(f: T -> nat, s: set<T>, x: T)
    requires x !in s
    ensures SumOver(f, s + {x}) == f(x) + SumOver(f, s)
    decreases |s|
  {
    var all := s + {x};
    var y :| y in all && SumOver(f, all) == f(y) + SumOver(f, all - {y});
    if y == x {
      assert all - {y} == s;
    } else {
      assert all - {y} == (s - {y}) + {x} && (s - {y}) + {y} == s;
      SumOverAdded(f, s - {y}, x);
      SumOverAdded(f, s - {y}, y);
    }
  }

  lemma {:induction false} SumOverUnion<T(!new)>(f: T -> nat, s: set<T>, t: set<T>)
    requires s !! t
    ensures SumOver(f, s + t) == SumOver(f, s) + SumOver(f, t)
  {
    if x :| x in t {
      SumOverUnion(f, s, t - {x});
      SumOverAdded(f, t - {x}, x);
      SumOverAdded(f, s + (t - {x}), x);
      assert (t - {x}) + {x} == t && s + (t - {x}) + {x} == s + t;
    } else {
      assert s + t == s;
    }
  }

  lemma ScaledSuccessor(bound: nat, n: nat)
    ensures bound * (n + 1) == bound * n + bound
  {
  }

  /** Terms of at most `bound` sum up to at most `bound` times their number. */
  lemma {:induction false} SumOverBounded<T(!new)>(f: T -> nat, s: set<T>, bound: nat)
    requires forall x :: x in s ==> f(x) <= bound
    ensures SumOver(f, s) <= bound * |s|
  {
    if x :| x in s {
      var rest := s - {x};
      SumOverBounded(f, rest, bound);
      SumOverAdded(f, rest, x);
      assert rest + {x} == s;
      ScaledSuccessor(bound, |rest|);
    }
  }

  // ------------------------------------------------------------------------------------------
  // The rank of a call site
  // ------------------------------------------------------------------------------------------

  type Placement = (nat, string)

  /** The weight of a morpheme at a position, 0 when it is not known there. */
  ghost function WeightAt(ck: Checker, func: string, pos: nat, m: string): real {
    if ck.stats.None? then 0.0
    else var w := WeightForMorphemeAtPos(ck.stats.value, func, pos, m); if w.Some? then w.value else 0.0
  }

  /** The positions at which a morpheme weighs less. */
  ghost function LighterAt(ck: Checker, func: string, n: nat, pos: nat, m: string): set<nat> {
    set l: nat | l < n && WeightAt(ck, func, l, m) < WeightAt(ck, func, pos, m)
  }

  ghost function Rank(ck: Checker, func: string, n: nat): Placement -> nat {
    (p: Placement) => |LighterAt(ck, func, n, p.0, p.1)|
  }

  lemma HeavierRanksHigher(ck: Checker, func: string, n: nat, m: string, i: nat, j: nat)
    requires i < n && j < n
    ensures WeightAt(ck, func, i, m) <= WeightAt(ck, func, j, m) ==> Rank(ck, func, n)((i, m)) <= Rank(ck, func, n)((j, m))
    ensures WeightAt(ck, func, i, m) < WeightAt(ck, func, j, m) ==> Rank(ck, func, n)((i, m)) < Rank(ck, func, n)((j, m))
  {
    var lower, upper := LighterAt(ck, func, n, i, m), LighterAt(ck, func, n, j, m);
    if WeightAt(ck, func, i, m) <= WeightAt(ck, func, j, m) {
      SubsetIsNoLarger(lower, upper);
    }
    if WeightAt(ck, func, i, m) < WeightAt(ck, func, j, m) {
      assert i in upper && i !in lower;
      SubsetIsNoLarger(lower, upper - {i});
    }
  }

  lemma {:induction false} PositionsAreFew(s: set<nat>, n: nat)
    requires forall k :: k in s ==> k < n
    ensures |s| <= n
  {
    if n == 0 {
      assert s == {};
    } else {
      PositionsAreFew(s - {n - 1}, n - 1);
    }
  }

  ghost function Placed(pos: nat, morphemes: set<string>): set<Placement> {
    set m | m in morphemes :: (pos, m)
  }

  ghost function Placements(site: CallSite): set<Placement> {
    set k: nat, m | k < |site.positionalArgNames| && m in ArgMorphemes(site, k) :: (k, m)
  }

  ghost function RankAt(ck: Checker, site: CallSite): Placement -> nat {
    Rank(ck, site.callDecl.fullyQualifiedName, |site.positionalArgNames|)
  }

  /** How high the morphemes of the arguments rank where they are, all together. */
  ghost function SiteRank(ck: Checker, site: CallSite): nat {
    SumOver(RankAt(ck, site), Placements(site))
  }

  /** No rank exceeds the number of positions. */
  ghost function RankBound(site: CallSite): nat {
    |site.positionalArgNames| * |Placements(site)|
  }

  lemma RankIsBounded(ck: Checker, site: CallSite)
    ensures SiteRank(ck, site) <= RankBound(site)
  {
    var n := |site.positionalArgNames|;
    forall p | p in Placements(site)
      ensures RankAt(ck, site)(p) <= n
    {
      PositionsAreFew(LighterAt(ck, site.callDecl.fullyQualifiedName, n, p.0, p.1), n);
    }
    SumOverBounded(RankAt(ck, site), Placements(site), n);
  }

  /** Morphemes that rank no lower at another position do not lose rank together. */
  lemma {:induction false} MovedMorphemesKeepRank(f: Placement -> nat, i: nat, j: nat, morphemes: set<string>)
    requires forall m :: m in morphemes ==> f((i, m)) <= f((j, m))
    ensures SumOver(f, Placed(i, morphemes)) <= SumOver(f, Placed(j, morphemes))
  {
    if m :| m in morphemes {
      var rest := morphemes - {m};
      MovedMorphemesKeepRank(f, i, j, rest);
      SumOverAdded(f, Placed(i, rest), (i, m));
      SumOverAdded(f, Placed(j, rest), (j, m));
      assert Placed(i, rest) + {(i, m)} == Placed(i, morphemes);
      assert Placed(j, rest) + {(j, m)} == Placed(j, morphemes);
    }
  }

  lemma SingleRank(f: Placement -> nat, pos: nat, m: string)
    ensures SumOver(f, Placed(pos, {m})) == f((pos, m))
  {
    SumOverAdded(f, {}, (pos, m));
    assert {} + {(pos, m)} == Placed(pos, {m});
  }

  /** The exchange moves the distinguishing morphemes of the two arguments and nothing else. */
  lemma ExchangeMovesPlacements(site: CallSite, p: Pair) returns (kept: set<Placement>)
    requires p.0 < p.1 < |site.positionalArgNames|
    ensures var v := View(site, p.0, p.1);
            var own1, own2 := v.a1 - v.a2, v.a2 - v.a1;
            && Placements(site) == kept + (Placed(p.0, own1) + Placed(p.1, own2))
            && Placements(Exchange(site, p)) == kept + (Placed(p.1, own1) + Placed(p.0, own2))
            && kept !! Placed(p.0, own1) + Placed(p.1, own2) && kept !! Placed(p.1, own1) + Placed(p.0, own2)
  {
    var site' := Exchange(site, p);
    kept := Placements(site) * Placements(site');
    ViewOfExchanged(site, p);
    assert forall k: nat :: k != p.0 && k != p.1 ==> ArgMorphemes(site', k) == ArgMorphemes(site, k);
    assert ArgMorphemes(site', p.0) == ArgMorphemes(site, p.1) && ArgMorphemes(site', p.1) == ArgMorphemes(site, p.0);
    hide ArgMorphemes, Exchange;
  }

  lemma ExchangeMovesRank(ck: Checker, site: CallSite, p: Pair)
    requires p.0 < p.1 < |site.positionalArgNames|
    ensures var f, v := RankAt(ck, site), View(site, p.0, p.1);
            SiteRank(ck, Exchange(site, p)) + SumOver(f, Placed(p.0, v.a1 - v.a2)) + SumOver(f, Placed(p.1, v.a2 - v.a1)) ==
            SiteRank(ck, site) + SumOver(f, Placed(p.1, v.a1 - v.a2)) + SumOver(f, Placed(p.0, v.a2 - v.a1))
  {
    var f, v := RankAt(ck, site), View(site, p.0, p.1);
    var own1, own2 := v.a1 - v.a2, v.a2 - v.a1;
    var kept := ExchangeMovesPlacements(site, p);
    assert RankAt(ck, Exchange(site, p)) == f;
    hide Placements, RankAt, SumOver;
    SumOverUnion(f, Placed(p.0, own1), Placed(p.1, own2));
    SumOverUnion(f, Placed(p.1, own1), Placed(p.0, own2));
    SumOverUnion(f, kept, Placed(p.0, own1) + Placed(p.1, own2));
    SumOverUnion(f, kept, Placed(p.1, own1) + Placed(p.0, own2));
  }

  lemma {:induction false} PlacedSize(pos: nat, morphemes: set<string>)
    ensures |Placed(pos, morphemes)| == |morphemes|
  {
    if m :| m in morphemes {
      PlacedSize(pos, morphemes - {m});
      assert Placed(pos, morphemes) == Placed(pos, morphemes - {m}) + {(pos, m)};
    }
  }

  lemma SizeOfThree<T>(kept: set<T>, one: set<T>, two: set<T>)
    requires kept !! one + two && one !! two
    ensures |kept + (one + two)| == |kept| + |one| + |two|
  {
  }

  lemma ExchangeKeepsPlacementCount(site: CallSite, p: Pair)
    requires p.0 < p.1 < |site.positionalArgNames|
    ensures |Placements(Exchange(site, p))| == |Placements(site)|
  {
    var v := View(site, p.0, p.1);
    var own1, own2 := v.a1 - v.a2, v.a2 - v.a1;
    var kept := ExchangeMovesPlacements(site, p);
    PlacedSize(p.0, own1);
    PlacedSize(p.0, own2);
    PlacedSize(p.1, own1);
    PlacedSize(p.1, own2);
    assert Placed(p.0, own1) !! Placed(p.1, own2) && Placed(p.1, own1) !! Placed(p.0, own2);
    hide Placements, Placed, View;
    SizeOfThree(kept, Placed(p.0, own1), Placed(p.1, own2));
    SizeOfThree(kept, Placed(p.1, own1), Placed(p.0, own2));
  }

  lemma ExchangeKeepsRankBound(site: CallSite, p: Pair)
    requires p.0 < p.1 < |site.positionalArgNames|
    ensures RankBound(Exchange(site, p)) == RankBound(site)
  {
    hide Placements;
    ExchangeKeepsPlacementCount(site, p);
  }

  // ------------------------------------------------------------------------------------------
  // What a swap gains
  // ------------------------------------------------------------------------------------------

  lemma ConfidentIsHeavier(ck: Checker, func: string, m: string, pos: nat, other: nat)
    requires ck.stats.Some? && ConfidenceExceeds(ck.stats.value, func, m, pos, other, 1.0)
    ensures WeightAt(ck, func, pos, m) > WeightAt(ck, func, other, m)
  {
    var here, there := WeightForMorphemeAtPos(ck.stats.value, func, pos, m), WeightForMorphemeAtPos(ck.stats.value, func, other, m);
    if here.Some? && there.Some? {
      QuotientComparedToOne(here.value, there.value);
    }
  }

  lemma NotConfidentIsNoHeavier(ck: Checker, func: string, m: string, pos: nat, other: nat, bound: real)
    requires ck.stats.Some? && bound < 1.0 && !ConfidenceExceeds(ck.stats.value, func, m, pos, other, bound)
    ensures WeightAt(ck, func, pos, m) <= WeightAt(ck, func, other, m)
  {
    var here, there := WeightForMorphemeAtPos(ck.stats.value, func, pos, m), WeightForMorphemeAtPos(ck.stats.value, func, other, m);
    if here.Some? && there.Some? {
      QuotientComparedToOne(here.value, there.value);
    }
  }

  lemma StatsStepGainsRank(ck: Checker, site: CallSite, p: Pair)
    requires ck.stats.Some? && ck.opts.statsSwappedMorphemeThreshold >= 1.0
    requires p.0 < p.1 < |site.positionalArgNames| && StatsVerdict(ck.stats.value, ck.opts, View(site, p.0, p.1)).Report?
    ensures SiteRank(ck, Exchange(site, p)) >= SiteRank(ck, site) + 2
  {
    var v, n := View(site, p.0, p.1), |site.positionalArgNames|;
    var f := RankAt(ck, site);
    var m1, m2 := StatsReportMeaning(ck.stats.value, ck.opts, v);
    ExchangeMovesRank(ck, site, p);
    SingleRank(f, p.0, m1);
    SingleRank(f, p.1, m1);
    SingleRank(f, p.0, m2);
    SingleRank(f, p.1, m2);
    ConfidentIsHeavier(ck, v.func, m1, p.1, p.0);
    ConfidentIsHeavier(ck, v.func, m2, p.0, p.1);
    HeavierRanksHigher(ck, v.func, n, m1, p.0, p.1);
    HeavierRanksHigher(ck, v.func, n, m2, p.1, p.0);
    hide Rank, SiteRank, ArgMorphemes;
  }

  /** A morpheme that the vetting lets pass from one position to another ranks no lower there. */
  lemma PassedRanksNoLower(ck: Checker, func: string, n: nat, m: string, pos: nat, other: nat)
    requires ck.opts.coverSwappedStatsVettingThreshold < 1.0 && pos < n && other < n
    requires ck.stats.Some? ==>
               !ConfidenceExceeds(ck.stats.value, func, m, pos, other, ck.opts.coverSwappedStatsVettingThreshold)
    ensures Rank(ck, func, n)((pos, m)) <= Rank(ck, func, n)((other, m))
  {
    if ck.stats.Some? {
      NotConfidentIsNoHeavier(ck, func, m, pos, other, ck.opts.coverSwappedStatsVettingThreshold);
    }
    HeavierRanksHigher(ck, func, n, m, pos, other);
  }

  lemma CoverStepKeepsRank(ck: Checker, site: CallSite, p: Pair)
    requires ck.opts.coverSwappedStatsVettingThreshold < 1.0
    requires p.0 < p.1 < |site.positionalArgNames| && !Suppressed(ck, View(site, p.0, p.1))
    ensures SiteRank(ck, Exchange(site, p)) >= SiteRank(ck, site)
  {
    var v := View(site, p.0, p.1);
    var f := RankAt(ck, site);
    SuppressedIff(ck, v);
    hide Rank, ArgMorphemes;
    forall m | m in v.a1 - v.a2
      ensures f((p.0, m)) <= f((p.1, m))
    {
      PassedRanksNoLower(ck, v.func, |site.positionalArgNames|, m, p.0, p.1);
    }
    forall m | m in v.a2 - v.a1
      ensures f((p.1, m)) <= f((p.0, m))
    {
      PassedRanksNoLower(ck, v.func, |site.positionalArgNames|, m, p.1, p.0);
    }
    ExchangeMovesRank(ck, site, p);
    MovedMorphemesKeepRank(f, p.0, p.1, v.a1 - v.a2);
    MovedMorphemesKeepRank(f, p.1, p.0, v.a2 - v.a1);
  }

  // ------------------------------------------------------------------------------------------
  // Runs
  // ------------------------------------------------------------------------------------------

  /** The thresholds with which every swap gains rank, or matches without losing rank. */
  predicate Gaining(opts: CheckerConfiguration) {
    CoverLasts(opts)
    && opts.statsSwappedMorphemeThreshold >= 1.0
    && (CoverCanReport(opts) ==> opts.coverSwappedStatsVettingThreshold < 1.0)
  }

  /** How far the call site is from having every morpheme ranked highest and every match made. */
  ghost function RankSlack(ck: Checker, site: CallSite): nat {
    RankIsBounded(ck, site);
    MeasuresAreBounded(ck, site);
    Lexicographic(RankBound(site) - SiteRank(ck, site), ParamTotal(site) - Matches(site), ParamTotal(site))
  }

  ghost function RankSlackBound(site: CallSite): nat {
    RankBound(site) * (ParamTotal(site) + 2) + 2 * ParamTotal(site)
  }

  lemma RankSlackIsBounded(ck: Checker, site: CallSite)
    ensures RankSlack(ck, site) <= RankSlackBound(site)
  {
    hide SumTo;
    RankIsBounded(ck, site);
    MeasuresAreBounded(ck, site);
    ScaledBound(RankBound(site) - SiteRank(ck, site), RankBound(site), ParamTotal(site) + 2);
  }

  lemma GainsUseRankSlack(ck: Checker, site: CallSite, p: Pair)
    requires p.0 < p.1 < |site.positionalArgNames|
    requires || SiteRank(ck, Exchange(site, p)) >= SiteRank(ck, site) + 2
             || (SiteRank(ck, Exchange(site, p)) >= SiteRank(ck, site)
                 && Matches(Exchange(site, p)) >= Matches(site) + 2)
    ensures RankSlack(ck, Exchange(site, p)) + 4 <= RankSlack(ck, site)
  {
    hide SumTo, Lexicographic, ArgMorphemes, ParamMorphemes, SiteRank, RankBound;
    var site' := Exchange(site, p);
    RankIsBounded(ck, site);
    RankIsBounded(ck, site');
    MeasuresAreBounded(ck, site);
    MeasuresAreBounded(ck, site');
    ExchangeKeepsRankBound(site, p);
    ExchangeChangesTwoTerms(ck, site, p);
    var r, w := RankBound(site), ParamTotal(site);
    LexicographicDecreases(r - SiteRank(ck, site), r - SiteRank(ck, site'), w - Matches(site), w - Matches(site'), w);
  }

  lemma StepUsesRankSlack(ck: Checker, mode: Check, site: CallSite, site': CallSite)
    requires Gaining(ck.opts) && RepairStep(ck, mode, site, site')
    ensures RankSlack(ck, site') + 4 <= RankSlack(ck, site)
  {
    var p: Pair :| p.0 < p.1 < |site.positionalArgNames|
                   && Verdicts(ck, site, mode)(p).Report? && site' == Exchange(site, p);
    var v := View(site, p.0, p.1);
    ReportOrigin(ck, v, mode);
    hide SiteRank, Matches, RankSlack;
    if CoverVerdict(ck, v).Report? {
      CoverReportNeeds(ck, v);
      CoverReportCrosses(ck, v);
      CoverStepGains(ck, site, p);
      CoverStepKeepsRank(ck, site, p);
    } else {
      StatsStepGainsRank(ck, site, p);
    }
    GainsUseRankSlack(ck, site, p);
  }

  lemma {:induction false} RunUsesRankSlack(ck: Checker, mode: Check, run: seq<CallSite>, a: nat, b: nat)
    requires Gaining(ck.opts) && RepairRun(ck, mode, run) && a <= b < |run|
    ensures RankSlack(ck, run[b]) + 4 * (b - a) <= RankSlack(ck, run[a])
  {
    hide RankSlack, RepairStep;
    if a < b {
      RunUsesRankSlack(ck, mode, run, a, b - 1);
      assert StepAt(ck, mode, run, b);
      StepUsesRankSlack(ck, mode, run[b - 1], run[b]);
    }
  }

  /** Every run is bounded by the size of the call site, with any table at all. */
  lemma GainingRunIsBounded(ck: Checker, mode: Check, run: seq<CallSite>)
    requires Gaining(ck.opts) && RepairRun(ck, mode, run)
    ensures 4 * (|run| - 1) <= RankSlackBound(run[0])
  {
    RunUsesRankSlack(ck, mode, run, 0, |run| - 1);
    RankSlackIsBounded(ck, run[0]);
  }

  // ------------------------------------------------------------------------------------------
  // Statistics only
  // ------------------------------------------------------------------------------------------

  /** The cover check is not asked in the statistics mode, so that its thresholds do not matter there. */
  lemma StatsStepUsesRank(ck: Checker, site: CallSite, site': CallSite)
    requires ck.opts.statsSwappedMorphemeThreshold >= 1.0 && RepairStep(ck, StatsBased, site, site')
    ensures SiteRank(ck, site') >= SiteRank(ck, site) + 2 && RankBound(site') == RankBound(site)
  {
    hide SiteRank, RankBound, StatsVerdict, CoverVerdict, VerdictOf;
    var p: Pair :| p.0 < p.1 < |site.positionalArgNames|
                   && Verdicts(ck, site, StatsBased)(p).Report? && site' == Exchange(site, p);
    ReportOrigin(ck, View(site, p.0, p.1), StatsBased);
    StatsStepGainsRank(ck, site, p);
    ExchangeKeepsRankBound(site, p);
  }

  lemma {:induction false} StatsRunUsesRank(ck: Checker, run: seq<CallSite>, b: nat)
    requires ck.opts.statsSwappedMorphemeThreshold >= 1.0 && RepairRun(ck, StatsBased, run) && b < |run|
    ensures SiteRank(ck, run[b]) >= SiteRank(ck, run[0]) + 2 * b && RankBound(run[b]) == RankBound(run[0])
  {
    hide RepairStep, SiteRank, RankBound;
    if b > 0 {
      StatsRunUsesRank(ck, run, b - 1);
      assert StepAt(ck, StatsBased, run, b);
      StatsStepUsesRank(ck, run[b - 1], run[b]);
    }
  }

  /** With the statistics alone, half the distance to the highest ranks bounds a run. */
  lemma RankedStatsRunIsBounded(ck: Checker, run: seq<CallSite>)
    requires ck.opts.statsSwappedMorphemeThreshold >= 1.0 && RepairRun(ck, StatsBased, run)
    ensures 2 * (|run| - 1) <= RankBound(run[0]) - SiteRank(ck, run[0])
  {
    StatsRunUsesRank(ck, run, |run| - 1);
    RankIsBounded(ck, run[|run| - 1]);
  }

  // ------------------------------------------------------------------------------------------
  // The measures as counts
  // ------------------------------------------------------------------------------------------

  /** The morphemes of the sets of the first `n` positions, each with its position. */
  ghost function PlacedUpTo(f: nat -> set<string>, n: nat): set<Placement> {
    set k: nat, m | k < n && m in f(k) :: (k, m)
  }

  lemma PlacedUpToNext(f: nat -> set<string>, n: nat)
    ensures PlacedUpTo(f, 0) == {}
    ensures PlacedUpTo(f, n + 1) == PlacedUpTo(f, n) + Placed(n, f(n))
    ensures PlacedUpTo(f, n) !! Placed(n, f(n))
  {
  }

  lemma {:induction false} SumIsCount(f: nat -> set<string>, sizes: nat -> nat, n: nat)
    requires forall k: nat :: sizes(k) == |f(k)|
    ensures SumTo(sizes, n) == |PlacedUpTo(f, n)|
  {
    PlacedUpToNext(f, if n > 0 then n - 1 else 0);
    hide PlacedUpTo, Placed;
    if n > 0 {
      SumIsCount(f, sizes, n - 1);
      PlacedSize(n - 1, f(n - 1));
    }
  }

  /** The positions below `n` with a property. */
  ghost function Those(f: nat -> bool, n: nat): set<nat> {
    set k: nat | k < n && f(k)
  }

  lemma ThoseNext(f: nat -> bool, n: nat)
    ensures Those(f, 0) == {}
    ensures n !in Those(f, n) && Those(f, n + 1) == Those(f, n) + (if f(n) then {n} else {})
  {
  }

  lemma {:induction false} IndicatorsCount(f: nat -> bool, sizes: nat -> nat, n: nat)
    requires forall k: nat :: sizes(k) == if f(k) then 1 else 0
    ensures SumTo(sizes, n) == |Those(f, n)|
  {
    ThoseNext(f, if n > 0 then n - 1 else 0);
    hide Those;
    if n > 0 {
      IndicatorsCount(f, sizes, n - 1);
    }
  }

  /** What the bounds speak of: how many morphemes the parameters have, and how many of them the arguments
      match in place. */
  lemma MatchesAreCounted(site: CallSite)
    ensures var n := |site.positionalArgNames|;
            && ParamTotal(site) == |PlacedUpTo((k: nat) => ParamMorphemes(site, k), n)|
            && Matches(site) == |PlacedUpTo((k: nat) => ArgMorphemes(site, k) * ParamMorphemes(site, k), n)|
  {
    hide PlacedUpTo, ParamMorphemes, ArgMorphemes;
    SumIsCount((k: nat) => ParamMorphemes(site, k), ParamSizeAt(site), |site.positionalArgNames|);
    SumIsCount((k: nat) => ArgMorphemes(site, k) * ParamMorphemes(site, k), OverlapAt(site), |site.positionalArgNames|);
  }

  /** At how many positions the argument has a morpheme whose fitness there exceeds the threshold. */
  lemma SettledAreCounted(ck: Checker, site: CallSite)
    ensures var func, n := site.callDecl.fullyQualifiedName, |site.positionalArgNames|;
            SettledCount(ck, site) ==
            |Those((k: nat) =>
                ck.stats.Some? && exists m :: m in ArgMorphemes(site, k)
                                              && Fitness(ck.stats.value, func, k, m) > ck.opts.statsSwappedFitnessThreshold, n)|
  {
    var func := site.callDecl.fullyQualifiedName;
    hide Those, ArgMorphemes, Fitness;
    IndicatorsCount(
      (k: nat) => ck.stats.Some? && exists m :: m in ArgMorphemes(site, k)
                                                && Fitness(ck.stats.value, func, k, m) > ck.opts.statsSwappedFitnessThreshold,
      SettledAt(ck, site), |site.positionalArgNames|);
  }
}
