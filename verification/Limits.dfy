/**
 Where the promises about acting on reports end: for every configuration that does not meet the
 conditions of module Exchanges there is a call site, and statistics as the database promises them,
 on which a fix is undone. The conditions are thereby exact.
 */
module Limits {
  import opened Wrappers
  import opened IdentifierSplitting
  import opened UsageStatistics
  import opened SmallTables
  import opened CallSites
  import opened PairChecks
  import opened PairProperties
  import opened SwappedArgChecker
  import opened SiteProperties
  import opened Exchanges
  import opened Repair
  import opened Cycles

  // ------------------------------------------------------------------------------------------
  // Call sites with two arguments
  // ------------------------------------------------------------------------------------------

  function TwoArguments(params: Option<seq<string>>, one: string, two: string): CallSite {
    CallSite(CallDeclDescriptor("f", params), [[one], [two]])
  }

  predicate Letter(name: string) {
    |name| == 1 && IsLower(name[0])
  }

  lemma TwoArgumentsExchanged(params: Option<seq<string>>, one: string, two: string)
    ensures Exchange(TwoArguments(params, one, two), (0, 1)) == TwoArguments(params, two, one)
  {
  }

  lemma TwoArgumentsAreDefined(ck: Checker, params: Option<seq<string>>, one: string, two: string, mode: Check)
    ensures SiteOutcome(ck, TwoArguments(params, one, two), mode).Completed?
  {
    SingleNamesAreSafe(TwoArguments(params, one, two).positionalArgNames);
    SafeNamesRunsAreDefined(ck, TwoArguments(params, one, two), mode);
  }

  lemma ViewOfTwoArguments(params: Option<seq<string>>, one: string, two: string)
    requires Letter(one) && Letter(two)
    requires params.Some? ==> |params.value| == 2 && Letter(params.value[0]) && Letter(params.value[1])
    ensures var v := View(TwoArguments(params, one, two), 0, 1);
            && v.func == "f" && v.i == 0 && v.j == 1 && v.a1 == {one} && v.a2 == {two}
            && v.last1 == Some(one) && v.last2 == Some(two)
            && (params.None? ==> v.param1 == None)
            && (params.Some? ==> v.param1 == Some(params.value[0]) && v.param2 == Some(params.value[1])
                                 && v.p1 == {params.value[0]} && v.p2 == {params.value[1]})
  {
    MorphemesOfPlainName(one);
    MorphemesOfPlainName(two);
    if params.Some? {
      MorphemesOfPlainName(params.value[0]);
      MorphemesOfPlainName(params.value[1]);
    }
  }

  /** A pair of single letters that passes the guards and the vetting is reported by the cover check. */
  lemma CoverReportsLetters(ck: Checker, v: PairView, mode: Check)
    requires mode != StatsBased && CoverGuards(ck.opts, v) && !Suppressed(ck, v)
    requires v.a1 != {} && v.a2 != {} && v.p1 != {} && v.p2 != {}
    requires v.param1.Some? && v.param2.Some? && Letter(v.param1.value) && Letter(v.param2.value)
    requires v.last1.Some? && v.last2.Some? && Letter(v.last1.value) && Letter(v.last2.value)
    ensures VerdictOf(ck, v, mode).Report?
  {
  }

  /** Crossed single letters are reported by the cover check unless the vetting objects to one. */
  lemma CrossedLettersAreReported(ck: Checker, one: string, two: string, mode: Check)
    requires mode != StatsBased && CoverCanReport(ck.opts) && ck.opts.swappedMorphemeMatchMin > 0.0
    requires Letter(one) && Letter(two) && one != two
    requires ck.stats.Some? ==>
               var vetting := ck.opts.coverSwappedStatsVettingThreshold;
               !ConfidenceExceeds(ck.stats.value, "f", one, 0, 1, vetting)
               && !ConfidenceExceeds(ck.stats.value, "f", two, 1, 0, vetting)
    ensures Verdicts(ck, TwoArguments(Some([two, one]), one, two), mode)((0, 1)).Report?
  {
    var v := View(TwoArguments(Some([two, one]), one, two), 0, 1);
    ViewOfTwoArguments(Some([two, one]), one, two);
    assert v.a1 - v.a2 == {one} == v.p2 - v.p1 && v.a2 - v.a1 == {two} == v.p1 - v.p2;
    CoverGuardsIff(ck.opts, v);
    SuppressedIff(ck, v);
    hide MorphemesOfNames, Suppressed, CoverGuards;
    CoverReportsLetters(ck, v, mode);
  }

  lemma UnrelatedPassGuards(opts: CheckerConfiguration, v: PairView, p: string, q: string, one: string, two: string)
    requires CoverCanReport(opts) && opts.swappedMorphemeMatchMin <= 0.0
    requires p != q && one != two && {p, q} !! {one, two}
    requires v.p1 == {p} && v.p2 == {q} && v.a1 == {one} && v.a2 == {two}
    ensures CoverGuards(opts, v)
  {
    assert p in {p, q} && q in {p, q} && one in {one, two} && two in {one, two};
    assert v.a1 - v.a2 == {one} && v.a2 - v.a1 == {two} && v.p1 - v.p2 == {p} && v.p2 - v.p1 == {q};
  }

  /** Without a demand on the match after the exchange the cover check reports unrelated names. */
  lemma UnrelatedLettersAreReported(ck: Checker, p: string, q: string, one: string, two: string, mode: Check)
    requires mode != StatsBased && CoverCanReport(ck.opts) && ck.opts.swappedMorphemeMatchMin <= 0.0 && ck.stats.None?
    requires Letter(p) && Letter(q) && Letter(one) && Letter(two)
    requires p != q && one != two && {p, q} !! {one, two}
    ensures Verdicts(ck, TwoArguments(Some([p, q]), one, two), mode)((0, 1)).Report?
  {
    var v := View(TwoArguments(Some([p, q]), one, two), 0, 1);
    ViewOfTwoArguments(Some([p, q]), one, two);
    UnrelatedPassGuards(ck.opts, v, p, q, one, two);
    hide MorphemesOfNames, CoverGuards;
    CoverReportsLetters(ck, v, mode);
  }

  /** Single letters that are better placed the other way round are reported by the statistics check,
      unless the parameters are crossed as well. */
  lemma MisplacedLettersAreReported(ck: Checker, params: Option<seq<string>>, one: string, two: string, mode: Check)
    requires mode != CoverBased && ck.stats.Some? && Letter(one) && Letter(two) && one != two
    requires params == None || (params == Some([one, two]) && ck.opts.swappedMorphemeMatchMin > 0.0)
    requires var bound := ck.opts.statsSwappedMorphemeThreshold;
             ConfidenceExceeds(ck.stats.value, "f", one, 1, 0, bound)
             && ConfidenceExceeds(ck.stats.value, "f", two, 0, 1, bound)
    requires var bound := ck.opts.statsSwappedFitnessThreshold;
             Fitness(ck.stats.value, "f", 1, one) > bound && Fitness(ck.stats.value, "f", 0, two) > bound
    ensures Verdicts(ck, TwoArguments(params, one, two), mode)((0, 1)).Report?
  {
    var v := View(TwoArguments(params, one, two), 0, 1);
    ViewOfTwoArguments(params, one, two);
    assert v.a1 - v.a2 == {one} && v.a2 - v.a1 == {two};
    StatsSwapIsUnique(ck.stats.value, ck.opts, v, one, two);
    if params.Some? {
      CoverGuardsIff(ck.opts, v);
      assert one in v.p1 - v.p2;
    }
    hide MorphemesOfNames, CoverGuards, StatsVerdict;
  }

  // ------------------------------------------------------------------------------------------
  // Configurations whose fixes do not last
  // ------------------------------------------------------------------------------------------

  /** A call site on which the pair of its two arguments is reported, and again once exchanged. */
  ghost predicate BackAndForth(ck: Checker, mode: Check, params: Option<seq<string>>, one: string, two: string) {
    Verdicts(ck, TwoArguments(params, one, two), mode)((0, 1)).Report?
    && Verdicts(ck, TwoArguments(params, two, one), mode)((0, 1)).Report?
  }

  lemma CoverContradictsItself(opts: CheckerConfiguration, mode: Check) returns (ck: Checker)
    requires mode != StatsBased && !CoverLasts(opts)
    ensures ck.opts == opts && PromisesKept(ck) && BackAndForth(ck, mode, Some(["a", "b"]), "c", "d")
  {
    ck := Checker(opts, None);
    assert "a"[0] != "b"[0] && "c"[0] != "d"[0] && "a"[0] != "c"[0] && "a"[0] != "d"[0] && "b"[0] != "c"[0] && "b"[0] != "d"[0];
    hide Verdicts;
    UnrelatedLettersAreReported(ck, "a", "b", "c", "d", mode);
    UnrelatedLettersAreReported(ck, "a", "b", "d", "c", mode);
  }

  lemma QuotientOfEquals(x: real)
    requires x > 0.0
    ensures x / x == 1.0
  {
    var quotient := x / x;
    assert quotient * x == x;
    assert (quotient - 1.0) * x == 0.0;
  }

  /** Two morphemes that are equally fit for both positions. */
  lemma EquallyFitLettersAreReported(ck: Checker, x: real, one: string, two: string, mode: Check)
    requires mode != CoverBased && 0.0 < x <= 1.0 && ck.stats == Some(FourRows(x, x))
    requires ck.opts.statsSwappedMorphemeThreshold < 1.0 && ck.opts.statsSwappedFitnessThreshold < x
    requires (one == "a" && two == "b") || (one == "b" && two == "a")
    ensures Verdicts(ck, TwoArguments(None, one, two), mode)((0, 1)).Report?
  {
    FourRowsMeaning(x, x);
    LettersDiffer();
    QuotientOfEquals(x);
    hide Fitness, WeightForMorphemeAtPos, Confidence, FourRows, Verdicts, TwoArguments;
    MisplacedLettersAreReported(ck, None, one, two, mode);
  }

  lemma EquallyFitGoesBackAndForth(ck: Checker, x: real, mode: Check)
    requires mode != CoverBased && 0.0 < x <= 1.0 && ck.stats == Some(FourRows(x, x))
    requires ck.opts.statsSwappedMorphemeThreshold < 1.0 && ck.opts.statsSwappedFitnessThreshold < x
    ensures BackAndForth(ck, mode, None, "a", "b")
  {
    hide FourRows, Verdicts, TwoArguments;
    EquallyFitLettersAreReported(ck, x, "a", "b", mode);
    EquallyFitLettersAreReported(ck, x, "b", "a", mode);
  }

  lemma StatsContradictsItself(opts: CheckerConfiguration, mode: Check) returns (ck: Checker)
    requires mode != CoverBased && !StatsLasts(opts)
    ensures ck.opts == opts && PromisesKept(ck) && BackAndForth(ck, mode, None, "a", "b")
  {
    ck := Checker(opts, Some(FourRows(0.5, 0.5)));
    FourRowsAreNormalised(0.5, 0.5);
    hide FourRows, Normalised, BackAndForth;
    EquallyFitGoesBackAndForth(ck, 0.5, mode);
  }

  lemma PositiveFactor(d: real, c: real)
    requires c > 0.0 && d * c > 0.0
    ensures d > 0.0
  {
  }

  /** The weights on which a ratio reaches the vetting threshold and no more. */
  lemma ThresholdWeights(vetting: real, fitness: real) returns (x: real, y: real)
    requires vetting >= 1.0 && fitness * (1.0 + vetting) < vetting
    ensures 0.0 < y <= x < 1.0 && x + y == 1.0 && x / y == vetting && x > fitness
  {
    x, y := vetting / (1.0 + vetting), 1.0 / (1.0 + vetting);
    assert x * (1.0 + vetting) == vetting && y * (1.0 + vetting) == 1.0;
    assert (x + y) * (1.0 + vetting) == 1.0 + vetting;
    assert x == vetting * y;
    assert (x - fitness) * (1.0 + vetting) > 0.0;
    PositiveFactor(x - fitness, 1.0 + vetting);
  }

  lemma VettingContradictsStats(opts: CheckerConfiguration) returns (ck: Checker)
    requires CoverCanReport(opts) && CoverLasts(opts) && StatsLasts(opts) && !VettingLasts(opts)
    ensures ck.opts == opts && PromisesKept(ck) && BackAndForth(ck, All, Some(["b", "a"]), "a", "b")
  {
    LettersDiffer();
    if opts.statsSwappedMorphemeThreshold < 1.0 {
      ck := Checker(opts, Some(TwoRows()));
      TwoRowsMeaning();
    } else {
      var x, y := ThresholdWeights(opts.coverSwappedStatsVettingThreshold, opts.statsSwappedFitnessThreshold);
      ck := Checker(opts, Some(FourRows(x, y)));
      FourRowsAreNormalised(x, y);
      FourRowsMeaning(x, y);
    }
    hide Fitness, WeightForMorphemeAtPos, Confidence, FourRows, Normalised, Verdicts;
    CrossedLettersAreReported(ck, "a", "b", All);
    MisplacedLettersAreReported(ck, Some(["b", "a"]), "b", "a", All);
  }

  /** With every other configuration the default mode goes back and forth on some call site. */
  lemma NotLastingGoesBackAndForth(opts: CheckerConfiguration)
    returns (ck: Checker, params: Option<seq<string>>, one: string, two: string)
    requires !Lasting(opts)
    ensures ck.opts == opts && PromisesKept(ck) && BackAndForth(ck, All, params, one, two)
  {
    if !CoverLasts(opts) {
      ck := CoverContradictsItself(opts, All);
      params, one, two := Some(["a", "b"]), "c", "d";
    } else if !StatsLasts(opts) {
      ck := StatsContradictsItself(opts, All);
      params, one, two := None, "a", "b";
    } else {
      ck := VettingContradictsStats(opts);
      params, one, two := Some(["b", "a"]), "a", "b";
    }
  }

  /**
   For every configuration: no fix is ever undone, over all call sites, all statistics that keep
   the promises of the database and all modes, exactly when the thresholds are lasting.
   */
  lemma FixIsNeverUndoneIff(opts: CheckerConfiguration)
    ensures (forall ck: Checker, site, p, first, second :: ck.opts == opts && PromisesKept(ck) ==>
               !Undone(ck, site, p, first, second))
            <==> Lasting(opts)
  {
    if Lasting(opts) {
      forall ck: Checker, site, p, first, second | ck.opts == opts && PromisesKept(ck)
        ensures !Undone(ck, site, p, first, second)
      {
        FixIsNeverUndone(ck, site, p, first, second);
      }
    } else {
      var ck, params, one, two := NotLastingGoesBackAndForth(opts);
      TwoArgumentsExchanged(params, one, two);
      TwoArgumentsAreDefined(ck, params, one, two, All);
      TwoArgumentsAreDefined(ck, params, two, one, All);
      UndoneIff(ck, TwoArguments(params, one, two), (0, 1), All, All);
      assert Undone(ck, TwoArguments(params, one, two), (0, 1), All, All);
    }
  }

  // ------------------------------------------------------------------------------------------
  // Runs that do not end
  // ------------------------------------------------------------------------------------------

  function ThereAndBack(params: Option<seq<string>>, one: string, two: string): seq<CallSite> {
    [TwoArguments(params, one, two), TwoArguments(params, two, one), TwoArguments(params, one, two)]
  }

  lemma BackAndForthSteps(ck: Checker, mode: Check, params: Option<seq<string>>, one: string, two: string)
    requires BackAndForth(ck, mode, params, one, two)
    ensures RepairStep(ck, mode, TwoArguments(params, one, two), TwoArguments(params, two, one))
    ensures RepairStep(ck, mode, TwoArguments(params, two, one), TwoArguments(params, one, two))
  {
    hide Verdicts;
    TwoArgumentsExchanged(params, one, two);
    TwoArgumentsExchanged(params, two, one);
  }

  lemma BackAndForthIsCycle(ck: Checker, mode: Check, params: Option<seq<string>>, one: string, two: string)
    requires BackAndForth(ck, mode, params, one, two)
    ensures Cycle(ck, mode, ThereAndBack(params, one, two))
  {
    TwoArgumentsAreDefined(ck, params, one, two, mode);
    TwoArgumentsAreDefined(ck, params, two, one, mode);
    hide RepairStep, BackAndForth, TwoArguments, SiteOutcome;
    BackAndForthSteps(ck, mode, params, one, two);
    var run := ThereAndBack(params, one, two);
    assert StepAt(ck, mode, run, 1) && StepAt(ck, mode, run, 2);
  }

  // ------------------------------------------------------------------------------------------
  // Statistics that break the promises
  // ------------------------------------------------------------------------------------------

  /**
   The promise of the database about its weights is needed: on a table whose weights at a position
   add up to more than 1, acting on the reports of the statistics check goes on forever even with the
   default thresholds.
   */
  lemma UnnormalisedTableCycles(n: nat) returns (ck: Checker, run: seq<CallSite>)
    ensures ck.opts == DEFAULT_CONFIGURATION && ck.stats.Some? && UniqueRows(ck.stats.value)
    ensures CheckedRun(ck, StatsBased, run) && |run| > n
  {
    ck := Checker(DEFAULT_CONFIGURATION, Some(FourRows(0.8, 0.8)));
    FourRowsAreUnique(0.8, 0.8);
    hide FourRows, UniqueRows, BackAndForth, CheckedRun, Cycle;
    EquallyFitGoesBackAndForth(ck, 0.8, StatsBased);
    BackAndForthIsCycle(ck, StatsBased, None, "a", "b");
    run := CyclesDoNotEnd(ck, StatsBased, ThereAndBack(None, "a", "b"), n);
  }
}
