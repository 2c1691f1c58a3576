/**
 When repairs end: for every configuration and mode, exactly which thresholds keep every run of
 repairs from coming back. They are fewer than those with which no single fix is undone.
 */
module Endings {
  import opened Wrappers
  import opened IdentifierSplitting
  import opened PairEnumeration
  import opened UsageStatistics
  import opened SmallTables
  import opened CallSites
  import opened PairChecks
  import opened PairProperties
  import opened SwappedArgChecker
  import opened SiteProperties
  import opened Exchanges
  import opened Repair
  import opened Cycles
  import opened Weighing
  import opened Limits

  // ------------------------------------------------------------------------------------------
  // Call sites with four arguments of two words each
  // ------------------------------------------------------------------------------------------

  type Words2 = (string, string)

  function Joined(words: Words2): string {
    words.0 + "_" + words.1
  }

  function Both(words: Words2): set<string> {
    {words.0, words.1}
  }

  predicate TwoLetters(words: Words2) {
    Letter(words.0) && Letter(words.1) && words.0 != words.1
  }

  lemma MorphemesOfJoined(words: Words2)
    requires TwoLetters(words)
    ensures Morphemes(Joined(words)) == Both(words) == MorphemesOfNames([Joined(words)])
    ensures Joined(words) != "" && !EndsInDigit(Joined(words))
  {
    MorphemesOfPlainName(words.0);
    MorphemesOfPlainName(words.1);
    MorphemesOfJoin(words.0, words.1);
    assert Joined(words)[|Joined(words)| - 1] == words.1[0];
  }

  /** What tells the parameter at a position from the others. */
  function Own(pos: nat): string {
    if pos == 0 then "c" else if pos == 1 then "b" else if pos == 2 then "a" else "d"
  }

  function OwnWords(pos: nat): Words2 {
    (Own(pos), "e")
  }

  function FourArguments(words: seq<Words2>): (site: CallSite)
    requires |words| == 4
    ensures |site.positionalArgNames| == 4 && forall k :: 0 <= k < 4 ==> |site.positionalArgNames[k]| == 1
  {
    CallSite(
      CallDeclDescriptor("f", Some([Joined(OwnWords(0)), Joined(OwnWords(1)), Joined(OwnWords(2)), Joined(OwnWords(3))])),
      [[Joined(words[0])], [Joined(words[1])], [Joined(words[2])], [Joined(words[3])]])
  }

  lemma FourArgumentsExchanged(words: seq<Words2>, i: nat, j: nat)
    requires |words| == 4 && i < j < 4
    ensures Exchange(FourArguments(words), (i, j)) == FourArguments(Swapped(words, i, j))
  {
    hide Joined;
  }

  /** Names on which neither check fails an assertion nor the suffix filter applies. */
  ghost predicate ProperlyNamed(v: PairView) {
    v.a1 != {} && v.a2 != {} && v.p1 != {} && v.p2 != {}
    && NotNumbered(v.param1) && NotNumbered(v.param2) && NotNumbered(v.last1) && NotNumbered(v.last2)
  }

  lemma NamesAtPosition(words: seq<Words2>, k: nat)
    requires |words| == 4 && k < 4
    ensures GetParamName(FourArguments(words), k) == Some(Joined(OwnWords(k)))
    ensures GetLastArgName(FourArguments(words), k) == Some(Joined(words[k]))
    ensures ArgMorphemes(FourArguments(words), k) == MorphemesOfNames([Joined(words[k])])
  {
    hide Joined, OwnWords, MorphemesOfNames;
    assert FourArguments(words).positionalArgNames[k] == [Joined(words[k])];
  }

  lemma MorphemesAtPosition(words: seq<Words2>, k: nat)
    requires |words| == 4 && k < 4 && TwoLetters(words[k])
    ensures NotNumbered(GetParamName(FourArguments(words), k)) && NotNumbered(GetLastArgName(FourArguments(words), k))
    ensures ParamMorphemes(FourArguments(words), k) == Both(OwnWords(k)) != {}
    ensures ArgMorphemes(FourArguments(words), k) == Both(words[k]) != {}
  {
    LettersDiffer();
    assert TwoLetters(OwnWords(k));
    NamesAtPosition(words, k);
    MorphemesOfJoined(words[k]);
    MorphemesOfJoined(OwnWords(k));
    assert words[k].0 in Both(words[k]) && "e" in Both(OwnWords(k));
    hide FourArguments, GetParamName, GetLastArgName, Morphemes, MorphemesOfNames, Joined, OwnWords, EndsInDigit;
  }

  lemma ViewOfFourArguments(words: seq<Words2>, i: nat, j: nat)
    requires |words| == 4 && i < j < 4 && TwoLetters(words[i]) && TwoLetters(words[j])
    ensures var v := View(FourArguments(words), i, j);
            ProperlyNamed(v) && v.func == "f" && v.i == i && v.j == j
            && v.a1 == Both(words[i]) && v.a2 == Both(words[j]) && v.p1 == Both(OwnWords(i)) && v.p2 == Both(OwnWords(j))
  {
    MorphemesAtPosition(words, i);
    MorphemesAtPosition(words, j);
    hide NotNumbered, GetParamName, GetLastArgName, ParamMorphemes, ArgMorphemes, Both;
  }

  lemma ProperlyNamedIsReported(ck: Checker, v: PairView)
    requires ProperlyNamed(v)
    requires (CoverGuards(ck.opts, v) && !Suppressed(ck, v))
             || (ck.stats.Some? && StatsVerdict(ck.stats.value, ck.opts, v).Report?)
    ensures VerdictOf(ck, v, All).Report?
  {
    hide CoverGuards, Suppressed, StatsVerdict;
  }

  // ------------------------------------------------------------------------------------------
  // A cycle of lasting fixes
  // ------------------------------------------------------------------------------------------

  /** Statistics that ask for the exchanges within {1, 2} and {0, 3} and let all others pass. */
  ghost predicate Cycling(ck: Checker, x: real, y: real) {
    CoverCanReport(ck.opts) && ck.opts.swappedMorphemeMatchMin > 0.0 && ck.opts.coverSwappedStatsVettingThreshold >= 1.0
    && 0.0 < y <= 1.0 && 0.0 < x <= 1.0 && ck.stats == Some(TwoBlocks(x, y))
    && x > ck.opts.statsSwappedFitnessThreshold && x / y > ck.opts.statsSwappedMorphemeThreshold
  }

  predicate Across(i: nat, j: nat) {
    i < j < 4 && (i in {0, 3} <==> j in {1, 2})
  }

  lemma CrossedIsCoverSwap(v: PairView, i: nat, j: nat)
    requires i < j < 4 && v.p1 == Both(OwnWords(i)) && v.p2 == Both(OwnWords(j))
    requires v.a1 !! v.a2 && |v.a1| == |v.a2| == 2 && Own(j) in v.a1 && Own(i) in v.a2
    ensures CoverSwap(v)
  {
    LettersDiffer();
    assert Own(i) in v.p1 && Own(i) !in v.p2;
  }

  lemma AcrossIsNotSuppressed(ck: Checker, x: real, y: real, v: PairView)
    requires Cycling(ck, x, y) && Across(v.i, v.j) && v.func == "f"
    ensures !Suppressed(ck, v)
  {
    SuppressedIff(ck, v);
    forall m
      ensures !ConfidenceExceeds(TwoBlocks(x, y), "f", m, v.i, v.j, ck.opts.coverSwappedStatsVettingThreshold)
      ensures !ConfidenceExceeds(TwoBlocks(x, y), "f", m, v.j, v.i, ck.opts.coverSwappedStatsVettingThreshold)
    {
      AcrossBlocks(x, y, m, v.i, v.j);
      AcrossBlocks(x, y, m, v.j, v.i);
    }
    hide Suppressed, TwoBlocks, Confidence;
  }

  lemma ReportedIsStep(ck: Checker, words: seq<Words2>, i: nat, j: nat)
    requires |words| == 4 && i < j < 4 && VerdictOf(ck, View(FourArguments(words), i, j), All).Report?
    ensures RepairStep(ck, All, FourArguments(words), FourArguments(Swapped(words, i, j)))
  {
    hide VerdictOf, FourArguments, View;
    FourArgumentsExchanged(words, i, j);
    assert Verdicts(ck, FourArguments(words), All)((i, j)).Report?;
  }

  lemma BothAreTwo(words: Words2)
    requires TwoLetters(words)
    ensures |Both(words)| == 2
  {
  }

  lemma CoverPart(ck: Checker, x: real, y: real, words: seq<Words2>, i: nat, j: nat)
    requires Cycling(ck, x, y) && Across(i, j)
    requires |words| == 4 && TwoLetters(words[i]) && TwoLetters(words[j]) && Both(words[i]) !! Both(words[j])
    requires Own(j) in Both(words[i]) && Own(i) in Both(words[j])
    ensures RepairStep(ck, All, FourArguments(words), FourArguments(Swapped(words, i, j)))
  {
    var v := View(FourArguments(words), i, j);
    ViewOfFourArguments(words, i, j);
    BothAreTwo(words[i]);
    BothAreTwo(words[j]);
    hide View, CoverGuards, Suppressed, FourArguments, ProperlyNamed, CoverSwap, RepairStep, Both, Own, OwnWords, TwoBlocks, TwoLetters, Letter;
    CrossedIsCoverSwap(v, i, j);
    CoverGuardsIff(ck.opts, v);
    AcrossIsNotSuppressed(ck, x, y, v);
    ProperlyNamedIsReported(ck, v);
    ReportedIsStep(ck, words, i, j);
  }

  /** The two arguments share a word; `m` belongs at `j`, `n` at `i`. */
  lemma StatsPart(ck: Checker, x: real, y: real, words: seq<Words2>, i: nat, j: nat, m: string, n: string)
    requires Cycling(ck, x, y) && i < j < 4
    requires |words| == 4 && TwoLetters(words[i]) && TwoLetters(words[j])
    requires Both(words[i]) - Both(words[j]) == {m} && Both(words[j]) - Both(words[i]) == {n}
    requires AtHomeAndAway(TwoBlocks(x, y), m, j, i, x, y) && AtHomeAndAway(TwoBlocks(x, y), n, i, j, x, y)
    ensures RepairStep(ck, All, FourArguments(words), FourArguments(Swapped(words, i, j)))
  {
    var v := View(FourArguments(words), i, j);
    ViewOfFourArguments(words, i, j);
    ConfidenceAtHomeAndAway(TwoBlocks(x, y), m, j, i, x, y);
    ConfidenceAtHomeAndAway(TwoBlocks(x, y), n, i, j, x, y);
    hide View, FourArguments, TwoBlocks, Confidence, Fitness, WeightForMorphemeAtPos, Both, TwoLetters, ProperlyNamed, RepairStep;
    StatsSwapIsUnique(TwoBlocks(x, y), ck.opts, v, m, n);
    ProperlyNamedIsReported(ck, v);
    ReportedIsStep(ck, words, i, j);
  }

  const BC: Words2 := ("b", "c")
  const BD: Words2 := ("b", "d")
  const AD: Words2 := ("a", "d")
  const AC: Words2 := ("a", "c")

  lemma OneWordDiffers(one: Words2, two: Words2)
    requires one.0 != one.1 && two.0 != two.1
    ensures one.1 == two.1 && one.0 != two.0 ==>
              Both(one) - Both(two) == {one.0} && Both(two) - Both(one) == {two.0}
    ensures one.0 == two.0 && one.1 != two.1 ==>
              Both(one) - Both(two) == {one.1} && Both(two) - Both(one) == {two.1}
  {
  }

  lemma StatsParts(ck: Checker, x: real, y: real, words: seq<Words2>)
    requires Cycling(ck, x, y) && |words| == 4
    ensures (words[1], words[2]) in {(BD, AD), (BC, AC)} ==>
              RepairStep(ck, All, FourArguments(words), FourArguments(Swapped(words, 1, 2)))
    ensures (words[0], words[3]) in {(BC, BD), (AC, AD)} ==>
              RepairStep(ck, All, FourArguments(words), FourArguments(Swapped(words, 0, 3)))
  {
    TwoBlocksMeaning(x, y);
    LettersDiffer();
    hide TwoBlocks, AtHomeAndAway, Cycling, FourArguments, RepairStep, Swapped, Both;
    if (words[1], words[2]) in {(BD, AD), (BC, AC)} {
      OneWordDiffers(words[1], words[2]);
      StatsPart(ck, x, y, words, 1, 2, "b", "a");
    }
    if (words[0], words[3]) in {(BC, BD), (AC, AD)} {
      OneWordDiffers(words[0], words[3]);
      StatsPart(ck, x, y, words, 0, 3, "c", "d");
    }
  }

  lemma CoverParts(ck: Checker, x: real, y: real, words: seq<Words2>)
    requires Cycling(ck, x, y) && |words| == 4
    ensures words[2] == BD && words[3] == AC ==> RepairStep(ck, All, FourArguments(words), FourArguments(Swapped(words, 2, 3)))
    ensures words[1] == AD && words[3] == BC ==> RepairStep(ck, All, FourArguments(words), FourArguments(Swapped(words, 1, 3)))
    ensures words[0] == BD && words[1] == AC ==> RepairStep(ck, All, FourArguments(words), FourArguments(Swapped(words, 0, 1)))
    ensures words[0] == AD && words[2] == BC ==> RepairStep(ck, All, FourArguments(words), FourArguments(Swapped(words, 0, 2)))
  {
    LettersDiffer();
    hide TwoBlocks, Cycling, FourArguments, RepairStep, Swapped;
    if words[2] == BD && words[3] == AC {
      CoverPart(ck, x, y, words, 2, 3);
    }
    if words[1] == AD && words[3] == BC {
      CoverPart(ck, x, y, words, 1, 3);
    }
    if words[0] == BD && words[1] == AC {
      CoverPart(ck, x, y, words, 0, 1);
    }
    if words[0] == AD && words[2] == BC {
      CoverPart(ck, x, y, words, 0, 2);
    }
  }

  lemma SwappedOfFour(a: Words2, b: Words2, c: Words2, d: Words2)
    ensures Swapped([a, b, c, d], 0, 1) == [b, a, c, d] && Swapped([a, b, c, d], 0, 2) == [c, b, a, d]
    ensures Swapped([a, b, c, d], 0, 3) == [d, b, c, a] && Swapped([a, b, c, d], 1, 2) == [a, c, b, d]
    ensures Swapped([a, b, c, d], 1, 3) == [a, d, c, b] && Swapped([a, b, c, d], 2, 3) == [a, b, d, c]
  {
  }

  /** Eight exchanges, in turns asked for by the statistics and by the names, each of which lasts. */
  function EightSwaps(): seq<CallSite> {
    [FourArguments([BC, BD, AD, AC]), FourArguments([BC, AD, BD, AC]), FourArguments([BC, AD, AC, BD]),
     FourArguments([BD, AD, AC, BC]), FourArguments([BD, BC, AC, AD]), FourArguments([BD, AC, BC, AD]),
     FourArguments([AC, BD, BC, AD]), FourArguments([AD, BD, BC, AC]), FourArguments([BC, BD, AD, AC])]
  }

  lemma EightSwapsAreCycle(ck: Checker, x: real, y: real)
    requires Cycling(ck, x, y)
    ensures Cycle(ck, All, EightSwaps())
  {
    hide Cycling, FourArguments, RepairStep, Swapped, BC, BD, AD, AC;
    StatsParts(ck, x, y, [BC, BD, AD, AC]);
    SwappedOfFour(BC, BD, AD, AC);
    CoverParts(ck, x, y, [BC, AD, BD, AC]);
    SwappedOfFour(BC, AD, BD, AC);
    StatsParts(ck, x, y, [BC, AD, AC, BD]);
    SwappedOfFour(BC, AD, AC, BD);
    CoverParts(ck, x, y, [BD, AD, AC, BC]);
    SwappedOfFour(BD, AD, AC, BC);
    StatsParts(ck, x, y, [BD, BC, AC, AD]);
    SwappedOfFour(BD, BC, AC, AD);
    CoverParts(ck, x, y, [BD, AC, BC, AD]);
    SwappedOfFour(BD, AC, BC, AD);
    StatsParts(ck, x, y, [AC, BD, BC, AD]);
    SwappedOfFour(AC, BD, BC, AD);
    CoverParts(ck, x, y, [AD, BD, BC, AC]);
    SwappedOfFour(AD, BD, BC, AC);
    forall site | site in EightSwaps()
      ensures SiteOutcome(ck, site, All).Completed?
    {
      SingleNamesAreSafe(site.positionalArgNames);
      SafeNamesRunsAreDefined(ck, site, All);
    }
  }

  lemma ProductIsPositive(y: real, c: real)
    requires c > 0.0 && y * c > 0.0
    ensures y > 0.0
  {
  }

  lemma SteepQuotient(x: real, spare: real, y: real, most: real)
    requires 0.5 <= x < 1.0 && spare == 1.0 - x && most >= 0.0 && y == spare / (2.0 * (1.0 + most))
    ensures 0.0 < y <= spare && x / y > most
  {
    assert y * (2.0 * (1.0 + most)) == spare;
    ProductIsPositive(y, 2.0 * (1.0 + most));
    assert y * most >= 0.0;
    assert y + y + 2.0 * (y * most) == spare;
    assert spare <= 0.5 <= x;
    var quotient := x / y;
    assert quotient * y == x;
    assert (quotient - most) * y > 0.0;
    PositiveFactor(quotient - most, y);
  }

  lemma SteepWeights(confidence: real, fitness: real) returns (x: real, y: real)
    requires fitness < 1.0
    ensures 0.0 < y <= 1.0 && 0.0 < x <= 1.0 && x + y <= 1.0 && x > fitness && x / y > confidence
  {
    var least := if fitness > 0.0 then fitness else 0.0;
    var most := if confidence > 0.0 then confidence else 0.0;
    x := (1.0 + least) / 2.0;
    var spare := 1.0 - x;
    y := spare / (2.0 * (1.0 + most));
    SteepQuotient(x, spare, y, most);
  }

  /** For thresholds below 1 on fitness, whatever the one on confidence, some weights make the cycle. */
  lemma CyclingWeights(opts: CheckerConfiguration) returns (ck: Checker, x: real, y: real)
    requires CoverCanReport(opts) && opts.swappedMorphemeMatchMin > 0.0
    requires opts.coverSwappedStatsVettingThreshold >= 1.0 && opts.statsSwappedFitnessThreshold < 1.0
    ensures ck.opts == opts && PromisesKept(ck) && Cycling(ck, x, y)
  {
    x, y := SteepWeights(opts.statsSwappedMorphemeThreshold, opts.statsSwappedFitnessThreshold);
    ck := Checker(opts, Some(TwoBlocks(x, y)));
    TwoBlocksAreNormalised(x, y);
    hide TwoBlocks;
  }

  // ------------------------------------------------------------------------------------------
  // The classification
  // ------------------------------------------------------------------------------------------

  /** The thresholds with which runs of repairs in a mode end. */
  predicate Ending(opts: CheckerConfiguration, mode: Check) {
    (mode != StatsBased ==> CoverLasts(opts))
    && (mode != CoverBased ==> StatsLasts(opts))
    && (mode == All && CoverCanReport(opts) ==>
          opts.coverSwappedStatsVettingThreshold < 1.0 || opts.statsSwappedFitnessThreshold >= 1.0)
  }

  lemma ScaledByAtLeastOne(factor: real, x: real)
    requires factor >= 1.0 && x >= 0.0
    ensures factor * x >= x
  {
    assert (factor - 1.0) * x >= 0.0;
  }

  /** What ends repairs in the default mode also makes each fix last; below the greatest documented
      confidence the two are the same. */
  lemma EndingIsLasting(opts: CheckerConfiguration)
    ensures Ending(opts, All) ==> Lasting(opts)
    ensures opts.statsSwappedMorphemeThreshold < 1.0 ==> (Ending(opts, All) <==> Lasting(opts))
    ensures Settling(opts) <==> Ending(opts, All) && opts.statsSwappedFitnessThreshold >= 0.5
  {
    var fitness, vetting := opts.statsSwappedFitnessThreshold, opts.coverSwappedStatsVettingThreshold;
    if fitness >= 1.0 && vetting >= 1.0 {
      ScaledByAtLeastOne(fitness, 1.0 + vetting);
    }
  }

  lemma PartIsRun(ck: Checker, mode: Check, run: seq<CallSite>, a: nat)
    requires RepairRun(ck, mode, run) && a < |run|
    ensures RepairRun(ck, mode, run[a..])
  {
    hide RepairStep;
    forall k | 0 < k < |run[a..]|
      ensures StepAt(ck, mode, run[a..], k)
    {
      assert StepAt(ck, mode, run, a + k);
    }
  }

  /** With ending thresholds no run comes back to a call site it has left. */
  lemma EndingRunsDoNotRevisit(ck: Checker, mode: Check, run: seq<CallSite>)
    requires Ending(ck.opts, mode) && PromisesKept(ck) && RepairRun(ck, mode, run)
    ensures !Revisits(run)
  {
    if a: nat, b: nat :| a < b < |run| && run[a] == run[b] {
      hide RepairRun, Slack, RankSlack, SettledCount, ParamTotal, Matches, SiteRank;
      var part := run[a..];
      PartIsRun(ck, mode, run, a);
      if mode == CoverBased {
        CoverRunUsesMatches(ck, part, b - a);
      } else if mode == StatsBased {
        if ck.opts.statsSwappedMorphemeThreshold >= 1.0 {
          StatsRunUsesRank(ck, part, b - a);
        } else {
          StatsRunUsesPositions(ck, part, b - a);
        }
      } else if Settling(ck.opts) {
        RunUsesSlack(ck, mode, run, a, b);
      } else {
        RunUsesRankSlack(ck, mode, run, a, b);
      }
    }
  }

  /** A bound on every run by the size of the call site: n (m + 1) (w + 2) + 2 w for n arguments with m
      morphemes in all, and w parameter morphemes. */
  ghost function SwapBound(site: CallSite): nat {
    Lexicographic(RankBound(site) + |site.positionalArgNames|, ParamTotal(site), ParamTotal(site))
  }

  lemma BoundOfBoth(r: nat, n: nat, w: nat)
    ensures Lexicographic(r + n, w, w) == r * (w + 2) + n * (w + 2) + 2 * w
    ensures r * (w + 2) >= 2 * r && n * (w + 2) >= 2 * n
  {
    ScaledBound(2, w + 2, r);
    ScaledBound(2, w + 2, n);
  }

  lemma PlacementsUpTo(site: CallSite)
    ensures Placements(site) == PlacedUpTo((k: nat) => ArgMorphemes(site, k), |site.positionalArgNames|)
  {
    hide ArgMorphemes;
  }

  lemma SwapBoundIsProduct(n: nat, m: nat, w: nat)
    ensures Lexicographic(n * m + n, w, w) == n * (m + 1) * (w + 2) + 2 * w
  {
    assert n * (m + 1) == n * m + n;
  }

  lemma SwapBoundWrittenOut(site: CallSite)
    ensures var n := |site.positionalArgNames|;
            var m, w := |PlacedUpTo((k: nat) => ArgMorphemes(site, k), n)|, |PlacedUpTo((k: nat) => ParamMorphemes(site, k), n)|;
            SwapBound(site) == n * (m + 1) * (w + 2) + 2 * w
  {
    MatchesAreCounted(site);
    PlacementsUpTo(site);
    hide Placements, PlacedUpTo, ParamTotal, Lexicographic, ArgMorphemes, ParamMorphemes;
    SwapBoundIsProduct(|site.positionalArgNames|, |Placements(site)|, ParamTotal(site));
  }

  lemma BoundsAreSwapBounds(site: CallSite)
    ensures SlackBound(site) <= SwapBound(site) && RankSlackBound(site) <= SwapBound(site)
    ensures 2 * ParamTotal(site) <= SwapBound(site)
    ensures 2 * RankBound(site) <= SwapBound(site) && 2 * |site.positionalArgNames| <= SwapBound(site)
  {
    hide RankBound, SumTo, Lexicographic;
    BoundOfBoth(RankBound(site), |site.positionalArgNames|, ParamTotal(site));
  }

  /** Every run of every mode with ending thresholds is bounded by the size of the call site. */
  lemma EveryRunIsBounded(ck: Checker, mode: Check, run: seq<CallSite>)
    requires Ending(ck.opts, mode) && PromisesKept(ck) && RepairRun(ck, mode, run)
    ensures 4 * (|run| - 1) <= SwapBound(run[0])
  {
    hide SwapBound, SlackBound, RankSlackBound, RankBound, ParamTotal, SettledCount, Matches, SiteRank;
    BoundsAreSwapBounds(run[0]);
    if mode == CoverBased {
      CoverRunIsBounded(ck, run);
    } else if mode == StatsBased {
      if ck.opts.statsSwappedMorphemeThreshold >= 1.0 {
        RankedStatsRunIsBounded(ck, run);
      } else {
        StatsRunIsBounded(ck, run);
      }
    } else if Settling(ck.opts) {
      TunedRunIsBounded(ck, mode, run);
    } else {
      GainingRunIsBounded(ck, mode, run);
    }
  }

  lemma OthersCycle(opts: CheckerConfiguration, mode: Check) returns (ck: Checker, cycle: seq<CallSite>)
    requires !Ending(opts, mode)
    ensures ck.opts == opts && PromisesKept(ck) && Cycle(ck, mode, cycle)
  {
    hide Cycle, BackAndForth, PromisesKept;
    if mode != StatsBased && !CoverLasts(opts) {
      ck := CoverContradictsItself(opts, mode);
      BackAndForthIsCycle(ck, mode, Some(["a", "b"]), "c", "d");
      cycle := ThereAndBack(Some(["a", "b"]), "c", "d");
    } else if mode != CoverBased && !StatsLasts(opts) {
      ck := StatsContradictsItself(opts, mode);
      BackAndForthIsCycle(ck, mode, None, "a", "b");
      cycle := ThereAndBack(None, "a", "b");
    } else {
      var x, y;
      ck, x, y := CyclingWeights(opts);
      EightSwapsAreCycle(ck, x, y);
      cycle := EightSwaps();
    }
  }

  /** Where thresholds are lasting but not ending, repairs go round although no single fix is ever undone. */
  lemma LastingFixesCanGoRound(n: nat) returns (ck: Checker, run: seq<CallSite>)
    ensures Lasting(ck.opts) && PromisesKept(ck)
    ensures CheckedRun(ck, All, run) && |run| > n
  {
    var opts := DEFAULT_CONFIGURATION.(statsSwappedMorphemeThreshold := 1.0, coverSwappedStatsVettingThreshold := 1.0);
    var cycle;
    ck, cycle := OthersCycle(opts, All);
    hide Cycle, PromisesKept, CheckedRun;
    run := CyclesDoNotEnd(ck, All, cycle, n);
  }

  ghost predicate Promised(ck: Checker, opts: CheckerConfiguration) {
    ck.opts == opts && PromisesKept(ck)
  }

  /**
   For every configuration and every mode: over all call sites and all statistics that keep the
   promises of the database, no run of repairs comes back, each is no longer than there are
   arrangements of its arguments, and each is bounded by the size of the call site, exactly when the
   thresholds are ending. With any others, runs of every length are possible on which the checker
   completes each time.
   */
  lemma RunsEndIff(opts: CheckerConfiguration, mode: Check)
    ensures (forall ck, run :: Promised(ck, opts) && CheckedRun(ck, mode, run) ==> !Revisits(run)) <==> Ending(opts, mode)
    ensures (forall ck, run :: Promised(ck, opts) && CheckedRun(ck, mode, run) ==> |run| <= |Arrangements(run[0])|)
            <==> Ending(opts, mode)
    ensures (forall ck, run :: Promised(ck, opts) && CheckedRun(ck, mode, run) ==> 4 * (|run| - 1) <= SwapBound(run[0]))
            <==> Ending(opts, mode)
  {
    hide StepAt, Arrangements, SwapBound, PromisesKept, SiteOutcome;
    if Ending(opts, mode) {
      forall ck, run | Promised(ck, opts) && CheckedRun(ck, mode, run)
        ensures !Revisits(run) && |run| <= |Arrangements(run[0])| && 4 * (|run| - 1) <= SwapBound(run[0])
      {
        EndingRunsDoNotRevisit(ck, mode, run);
        RunWithoutRevisitEnds(ck, mode, run);
        EveryRunIsBounded(ck, mode, run);
      }
    } else {
      var ck, cycle := OthersCycle(opts, mode);
      var run := CyclesDoNotEnd(ck, mode, cycle, |Arrangements(cycle[0])| + SwapBound(cycle[0]) + 1);
      assert Promised(ck, opts) && run[0] == run[|run| - 1];
      assert Revisits(run);
    }
  }

  // ------------------------------------------------------------------------------------------
  // The repair loop
  // ------------------------------------------------------------------------------------------

  /**
   Rounds until nothing is reported. The arguments are permuted in place along a run of repairs, no
   longer than there are arrangements of them and than the size of the call site allows.
   */
  method RepairCallSite(ck: Checker, callDecl: CallDeclDescriptor, args: array<seq<string>>, mode: Check)
    returns (swaps: nat, ghost run: seq<CallSite>)
    requires Ending(ck.opts, mode) && PromisesKept(ck) && SafeNames(args[..]) && args.Length <= NOT_FOUND
    modifies args
    ensures SiteOutcome(ck, CallSite(callDecl, args[..]), mode) == Completed([])
    ensures multiset(args[..]) == old(multiset(args[..]))
    ensures RepairRun(ck, mode, run) && |run| == swaps + 1
    ensures run[0] == CallSite(callDecl, old(args[..])) && run[swaps] == CallSite(callDecl, args[..])
    ensures swaps < |Arrangements(CallSite(callDecl, old(args[..])))|
    ensures 4 * swaps <= SwapBound(CallSite(callDecl, old(args[..])))
    ensures Tuned(ck) ==> 4 * swaps <= SlackBound(CallSite(callDecl, old(args[..])))
  {
    hide SiteOutcome, SafeNames, RepairStep, Arrangements, SwapBound, SlackBound;
    swaps := 0;
    run := [CallSite(callDecl, args[..])];
    EveryRunIsBounded(ck, mode, run);
    var repaired := true;
    while repaired
      invariant SafeNames(args[..])
      invariant multiset(args[..]) == old(multiset(args[..]))
      invariant RepairRun(ck, mode, run) && |run| == swaps + 1
      invariant run[0] == CallSite(callDecl, old(args[..])) && run[swaps] == CallSite(callDecl, args[..])
      invariant 4 * swaps <= SwapBound(run[0])
      invariant !repaired ==> SiteOutcome(ck, CallSite(callDecl, args[..]), mode) == Completed([])
      decreases repaired, SwapBound(CallSite(callDecl, old(args[..]))) - 4 * swaps
    {
      repaired := RepairRound(ck, callDecl, args, mode);
      if repaired {
        RunExtends(ck, mode, run, CallSite(callDecl, args[..]));
        run := run + [CallSite(callDecl, args[..])];
        swaps := swaps + 1;
        EveryRunIsBounded(ck, mode, run);
      }
    }
    EndingRunsDoNotRevisit(ck, mode, run);
    RunWithoutRevisitEnds(ck, mode, run);
    if Tuned(ck) {
      TunedRunIsBounded(ck, mode, run);
    }
  }
}
