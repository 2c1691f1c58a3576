/**
 What the cover-based and the statistics-based check of one pair of arguments decide, in terms of
 sets of morphemes. The executable checks are in module SwappedArgChecker.
 */
module PairChecks {
  import opened Wrappers
  import opened UsageStatistics
  import opened CallSites

  // ------------------------------------------------------------------------------------------
  // Cover-based check
  // ------------------------------------------------------------------------------------------

  datatype Bias = Pessimistic | Optimistic

  /** How well `arg` covers `param`: pessimistically every morpheme must occur, optimistically one. */
  ghost function MatchScore(arg: set<string>, param: set<string>, bias: Bias): real {
    match bias
    case Pessimistic => if param <= arg then 1.0 else 0.0
    case Optimistic => if param !! arg then 0.0 else 1.0
  }

  ghost predicate CoverGuards(opts: CheckerConfiguration, v: PairView) {
    var q1, q2 := v.p1 - v.p2, v.p2 - v.p1;
    var u1, u2 := v.a1 - v.a2, v.a2 - v.a1;
    |v.p1| == |v.p2| == |v.a1| == |v.a2|
    && q1 != {} && q2 != {} && u1 != {} && u2 != {}
    && MatchScore(u1, q1, Optimistic) <= opts.existingMorphemeMatchMax
    && MatchScore(u2, q2, Optimistic) <= opts.existingMorphemeMatchMax
    && MatchScore(u1, q2, Pessimistic) >= opts.swappedMorphemeMatchMin
    && MatchScore(u2, q1, Pessimistic) >= opts.swappedMorphemeMatchMin
  }

  predicate IsDigit(c: char) { '0' <= c <= '9' }

  predicate EndsInDigit(s: string) {
    s != "" && IsDigit(s[|s| - 1])
  }

  function Stem(s: string): string {
    if s == "" then "" else s[..|s| - 1]
  }

  /** The numeric suffix filter. Both suffix characters are read from the first name. */
  predicate SuffixCheck(one: string, two: string)
    requires one != ""
  {
    var suf1, suf2 := one[|one| - 1], one[|one| - 1];
    IsDigit(suf1) && IsDigit(suf2) && Stem(one) == Stem(two)
  }

  ghost function WorstPsi(v: PairView): real {
    var q1, q2 := v.p1 - v.p2, v.p2 - v.p1;
    var u1, u2 := v.a1 - v.a2, v.a2 - v.a1;
    var psi1 := MatchScore(u1, q2, Pessimistic) / (MatchScore(u2, q2, Optimistic) + 0.01);
    var psi2 := MatchScore(u2, q1, Pessimistic) / (MatchScore(u1, q1, Optimistic) + 0.01);
    if psi2 < psi1 then psi2 else psi1
  }

  /** The confidences, where defined, that the morphemes belong at `pos` rather than `other`. */
  ghost function Confidences(t: Table, func: string, ms: set<string>, pos: nat, other: nat): set<real> {
    set m | m in ms && Confidence(t, func, m, pos, other).Some? :: Confidence(t, func, m, pos, other).value
  }

  ghost function Pick<T>(s: set<T>): (x: T)
    requires s != {}
    ensures x in s
  {
    var x :| x in s;
    x
  }

  ghost function Max(s: set<real>): (m: real)
    requires s != {}
    ensures m in s && forall x :: x in s ==> x <= m
  {
    var x := Pick(s);
    if s == {x} then x
    else
      assert s == {x} + (s - {x});
      var y := Max(s - {x});
      if x < y then y else x
  }

  ghost function MaxOption(s: set<real>): Option<real> {
    if s == {} then None else Some(Max(s))
  }

  /** The greatest confidence that one of the distinguishing morphemes is where it belongs. */
  ghost function VettedScore(stats: Option<Table>, v: PairView): Option<real> {
    match stats
    case None => None
    case Some(t) =>
      MaxOption(Confidences(t, v.func, v.a1 - v.a2, v.i, v.j) + Confidences(t, v.func, v.a2 - v.a1, v.j, v.i))
  }

  ghost predicate Suppressed(ck: Checker, v: PairView) {
    match VettedScore(ck.stats, v)
    case None => false
    case Some(score) => score > ck.opts.coverSwappedStatsVettingThreshold
  }

  ghost function CoverVerdict(ck: Checker, v: PairView): Verdict {
    if v.p1 == {} || v.p2 == {} || v.a1 == {} || v.a2 == {} then Fault
    else if !CoverGuards(ck.opts, v) then Silent
    else if v.param1.None? || v.param2.None? || v.param1.value == "" then Fault
    else if SuffixCheck(v.param1.value, v.param2.value) then Silent
    else if v.last1.None? || v.last2.None? || v.last1.value == "" then Fault
    else if SuffixCheck(v.last1.value, v.last2.value) then Silent
    else if Suppressed(ck, v) then Silent
    else
      Report(SwapResult(
        v.i + 1, v.j + 1, v.a1 - v.a2, v.a2 - v.a1,
        ParameterNameBased(WorstPsi(v), VettedScore(ck.stats, v))))
  }

  // ------------------------------------------------------------------------------------------
  // Statistics-based check
  // ------------------------------------------------------------------------------------------

  ghost predicate ConfidenceExceeds(t: Table, func: string, m: string, pos: nat, other: nat, bound: real) {
    var c := Confidence(t, func, m, pos, other);
    c.Some? && c.value > bound
  }

  /** The arguments differ in one morpheme each, and each of the two is at home at the other place. */
  ghost predicate StatsSwap(t: Table, opts: CheckerConfiguration, v: PairView, m1: string, m2: string) {
    v.a1 - v.a2 == {m1} && v.a2 - v.a1 == {m2}
    && ConfidenceExceeds(t, v.func, m1, v.j, v.i, opts.statsSwappedMorphemeThreshold)
    && ConfidenceExceeds(t, v.func, m2, v.i, v.j, opts.statsSwappedMorphemeThreshold)
    && Fitness(t, v.func, v.j, m1) > opts.statsSwappedFitnessThreshold
    && Fitness(t, v.func, v.i, m2) > opts.statsSwappedFitnessThreshold
  }

  ghost function StatsReport(t: Table, v: PairView, m1: string, m2: string): SwapResult
    requires Confidence(t, v.func, m1, v.j, v.i).Some? && Confidence(t, v.func, m2, v.i, v.j).Some?
  {
    SwapResult(
      v.i + 1, v.j + 1, {m1}, {m2},
      UsageStatisticsBased(
        Fitness(t, v.func, v.j, m1), Fitness(t, v.func, v.i, m2),
        Confidence(t, v.func, m1, v.j, v.i).value, Confidence(t, v.func, m2, v.i, v.j).value))
  }

  ghost function StatsVerdict(t: Table, opts: CheckerConfiguration, v: PairView): Verdict {
    if exists m1, m2 :: StatsSwap(t, opts, v, m1, m2) then
      var m1, m2 :| StatsSwap(t, opts, v, m1, m2);
      Report(StatsReport(t, v, m1, m2))
    else Silent
  }

  lemma StatsSwapIsUnique(t: Table, opts: CheckerConfiguration, v: PairView, m1: string, m2: string)
    requires StatsSwap(t, opts, v, m1, m2)
    ensures StatsVerdict(t, opts, v) == Report(StatsReport(t, v, m1, m2))
  {
  }

  // ------------------------------------------------------------------------------------------
  // Both checks
  // ------------------------------------------------------------------------------------------

  ghost predicate BothNamed(v: PairView) {
    NameOr(v.param1) != "" && NameOr(v.param2) != ""
  }

  /** What checking one pair does in the given mode. */
  ghost function VerdictOf(ck: Checker, v: PairView, mode: Check): Verdict {
    if v.a1 == {} || v.a2 == {} then Silent
    else if BothNamed(v) && (v.p1 == {} || v.p2 == {}) then Silent
    else
      var cover := if BothNamed(v) && mode != StatsBased then CoverVerdict(ck, v) else Silent;
      if cover != Silent then cover
      else if mode != CoverBased && ck.stats.Some? then StatsVerdict(ck.stats.value, ck.opts, v)
      else Silent
  }

  ghost function PairVerdict(ck: Checker, site: CallSite, i: nat, j: nat, mode: Check): Verdict {
    VerdictOf(ck, View(site, i, j), mode)
  }
}
