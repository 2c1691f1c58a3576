/**
 What the checker reports, written out on the data it is given: the lists of names, the rows of the
 statistics and the characters of a name. Nothing here refers to the verdicts or to the scores of the
 model, with which it is proved to agree (`ResultsAreReported`, `FaultedIffUndefined`).
 */
module Reference {
  import opened Wrappers
  import opened IdentifierSplitting
  import opened PairEnumeration
  import opened UsageStatistics
  import opened CallSites
  import opened PairChecks
  import opened PairProperties
  import opened SwappedArgChecker
  import opened SiteProperties

  // ------------------------------------------------------------------------------------------
  // Rows
  // ------------------------------------------------------------------------------------------

  predicate IsAbout(row: Row, func: string, pos: nat, m: string) {
    row.func == func && row.arg == pos && row.morpheme == m
  }

  ghost predicate Known(t: Table, func: string, pos: nat, m: string) {
    exists k :: 0 <= k < |t| && IsAbout(t[k], func, pos, m)
  }

  /** The first row about the morpheme at the position says `w`. */
  ghost predicate Weighs(t: Table, func: string, pos: nat, m: string, w: real) {
    exists k :: 0 <= k < |t| && IsAbout(t[k], func, pos, m) && t[k].value == w
                && forall l :: 0 <= l < k ==> !IsAbout(t[l], func, pos, m)
  }

  lemma KnownInRest(t: Table, func: string, pos: nat, m: string)
    requires t != [] && !IsAbout(t[0], func, pos, m)
    ensures Known(t[1..], func, pos, m) <==> Known(t, func, pos, m)
  {
    if k :| 0 <= k < |t[1..]| && IsAbout(t[1..][k], func, pos, m) {
      assert IsAbout(t[k + 1], func, pos, m);
    }
    if k :| 0 <= k < |t| && IsAbout(t[k], func, pos, m) {
      assert IsAbout(t[1..][k - 1], func, pos, m);
    }
  }

  lemma WeighsInRest(t: Table, func: string, pos: nat, m: string, w: real)
    requires t != [] && !IsAbout(t[0], func, pos, m)
    ensures Weighs(t[1..], func, pos, m, w) <==> Weighs(t, func, pos, m, w)
  {
    var rest := t[1..];
    if k :| 0 <= k < |rest| && IsAbout(rest[k], func, pos, m) && rest[k].value == w
            && forall l :: 0 <= l < k ==> !IsAbout(rest[l], func, pos, m) {
      assert forall l :: 0 < l < k + 1 ==> t[l] == rest[l - 1];
      assert IsAbout(t[k + 1], func, pos, m);
    }
    if k :| 0 <= k < |t| && IsAbout(t[k], func, pos, m) && t[k].value == w
            && forall l :: 0 <= l < k ==> !IsAbout(t[l], func, pos, m) {
      assert forall l :: 0 <= l < k - 1 ==> rest[l] == t[l + 1];
      assert IsAbout(rest[k - 1], func, pos, m);
    }
  }

  lemma {:induction false} WeightMeaning(t: Table, func: string, pos: nat, m: string)
    ensures WeightForMorphemeAtPos(t, func, pos, m).Some? <==> Known(t, func, pos, m)
    ensures forall w :: WeightForMorphemeAtPos(t, func, pos, m) == Some(w) <==> Weighs(t, func, pos, m, w)
    decreases |t|
  {
    if t != [] && !IsAbout(t[0], func, pos, m) {
      WeightMeaning(t[1..], func, pos, m);
      forall w
        ensures Weighs(t[1..], func, pos, m, w) <==> Weighs(t, func, pos, m, w)
      {
        WeighsInRest(t, func, pos, m, w);
      }
      KnownInRest(t, func, pos, m);
    } else if t != [] {
      assert Weighs(t, func, pos, m, t[0].value);
    }
  }

  /** The values of all rows about the morpheme at the position, added up. */
  ghost function RowSum(t: Table, func: string, pos: nat, m: string): real
    decreases |t|
  {
    if t == [] then 0.0
    else (if IsAbout(t[0], func, pos, m) then t[0].value else 0.0) + RowSum(t[1..], func, pos, m)
  }

  lemma {:induction false} FitnessIsRowSum(t: Table, func: string, pos: nat, m: string)
    ensures Fitness(t, func, pos, m) == RowSum(t, func, pos, m)
    decreases |t|
  {
    if t != [] {
      FitnessIsRowSum(t[1..], func, pos, m);
      WeightOfPrepend((t[0].morpheme, t[0].value), MorphemesAndWeightsAtPos(t[1..], func, pos), m);
    }
  }

  // ------------------------------------------------------------------------------------------
  // Confidence
  // ------------------------------------------------------------------------------------------

  ghost predicate KnownOnlyAt(t: Table, func: string, m: string, pos: nat, other: nat) {
    Known(t, func, pos, m) && !Known(t, func, other, m)
  }

  /** The confidence as a ratio of weights, 1 or 0 where only one of them is known. */
  ghost predicate ConfidenceIs(t: Table, func: string, m: string, pos: nat, other: nat, c: real) {
    (exists w, w' :: Weighs(t, func, pos, m, w) && Weighs(t, func, other, m, w') && c * w' == w)
    || (KnownOnlyAt(t, func, m, pos, other) && c == 1.0)
    || (KnownOnlyAt(t, func, m, other, pos) && c == 0.0)
  }

  /** More common at `pos` than `bound` times its weight at `other`. */
  ghost predicate MoreCommon(t: Table, func: string, m: string, pos: nat, other: nat, bound: real) {
    (exists w, w' :: Weighs(t, func, pos, m, w) && Weighs(t, func, other, m, w') && w > bound * w')
    || (KnownOnlyAt(t, func, m, pos, other) && 1.0 > bound)
    || (KnownOnlyAt(t, func, m, other, pos) && 0.0 > bound)
  }

  lemma QuotientMeaning(here: real, there: real, c: real, bound: real)
    requires there > 0.0
    ensures c == here / there <==> c * there == here
    ensures here / there > bound <==> here > bound * there
  {
    var q := here / there;
    assert q * there == here;
    if c * there == here {
      assert (c - q) * there == 0.0;
    }
    assert (q - bound) * there == here - bound * there;
  }

  lemma ConfidenceMeaning(t: Table, func: string, m: string, pos: nat, other: nat)
    ensures forall c :: Confidence(t, func, m, pos, other) == Some(c) <==> ConfidenceIs(t, func, m, pos, other, c)
  {
    WeightMeaning(t, func, pos, m);
    WeightMeaning(t, func, other, m);
    hide WeightForMorphemeAtPos, Weighs, Known;
    forall c
      ensures Confidence(t, func, m, pos, other) == Some(c) <==> ConfidenceIs(t, func, m, pos, other, c)
    {
      var here, there := WeightForMorphemeAtPos(t, func, pos, m), WeightForMorphemeAtPos(t, func, other, m);
      if here.Some? && there.Some? {
        QuotientMeaning(here.value, there.value, c, 0.0);
      }
    }
  }

  lemma MoreCommonMeaning(t: Table, func: string, m: string, pos: nat, other: nat, bound: real)
    ensures ConfidenceExceeds(t, func, m, pos, other, bound) <==> MoreCommon(t, func, m, pos, other, bound)
  {
    WeightMeaning(t, func, pos, m);
    WeightMeaning(t, func, other, m);
    hide WeightForMorphemeAtPos, Weighs, Known;
    var here, there := WeightForMorphemeAtPos(t, func, pos, m), WeightForMorphemeAtPos(t, func, other, m);
    if here.Some? && there.Some? {
      QuotientMeaning(here.value, there.value, 0.0, bound);
    }
  }

  /** No confidence at all: exactly the morphemes that are known at the other position only. */
  lemma NoConfidenceIff(t: Table, func: string, m: string, pos: nat, other: nat)
    ensures Confidence(t, func, m, pos, other) == Some(0.0) <==> KnownOnlyAt(t, func, m, other, pos)
    ensures Confidence(t, func, m, pos, other) == None <==> !Known(t, func, pos, m) && !Known(t, func, other, m)
  {
    WeightMeaning(t, func, pos, m);
    WeightMeaning(t, func, other, m);
    var here, there := WeightForMorphemeAtPos(t, func, pos, m), WeightForMorphemeAtPos(t, func, other, m);
    if here.Some? && there.Some? {
      QuotientMeaning(here.value, there.value, 0.0, 0.0);
    }
  }

  /** Known here with a weight, and either unknown there or not common enough there. */
  ghost predicate HeldHere(t: Table, func: string, m: string, pos: nat, other: nat, bound: real) {
    exists w :: Weighs(t, func, pos, m, w)
                && ((!Known(t, func, other, m) && bound < 1.0) || exists w' :: Weighs(t, func, other, m, w') && w > bound * w')
  }

  lemma HeldHereMeaning(t: Table, func: string, m: string, pos: nat, other: nat, bound: real)
    requires bound >= 0.0
    ensures ConfidenceExceeds(t, func, m, pos, other, bound) <==> HeldHere(t, func, m, pos, other, bound)
  {
    MoreCommonMeaning(t, func, m, pos, other, bound);
    WeightMeaning(t, func, pos, m);
    hide Weighs, Known, ConfidenceExceeds;
    if Known(t, func, pos, m) {
      assert Weighs(t, func, pos, m, WeightForMorphemeAtPos(t, func, pos, m).value);
    }
  }

  /** With a threshold of 0 or more, what withholds a cover report is a morpheme known where it is: one
      known only at the other place never does. */
  lemma SuppressedInWeights(ck: Checker, v: PairView)
    requires ck.opts.coverSwappedStatsVettingThreshold >= 0.0
    ensures Suppressed(ck, v) <==>
            ck.stats.Some?
            && var t, bound := ck.stats.value, ck.opts.coverSwappedStatsVettingThreshold;
               (exists m :: m in v.a1 - v.a2 && HeldHere(t, v.func, m, v.i, v.j, bound))
               || (exists m :: m in v.a2 - v.a1 && HeldHere(t, v.func, m, v.j, v.i, bound))
  {
    SuppressedIff(ck, v);
    if ck.stats.Some? {
      var t, bound := ck.stats.value, ck.opts.coverSwappedStatsVettingThreshold;
      forall m, pos: nat, other: nat
        ensures ConfidenceExceeds(t, v.func, m, pos, other, bound) <==> HeldHere(t, v.func, m, pos, other, bound)
      {
        HeldHereMeaning(t, v.func, m, pos, other, bound);
      }
    }
    hide Suppressed, ConfidenceExceeds, HeldHere;
  }

  // ------------------------------------------------------------------------------------------
  // Names
  // ------------------------------------------------------------------------------------------

  /** `s` holds the morphemes of all the names, those and no others. */
  ghost predicate CollectedFrom(s: set<string>, names: seq<string>) {
    forall m :: m in s <==> exists k :: 0 <= k < |names| && m in Morphemes(names[k])
  }

  lemma CollectedIsUnique(s: set<string>, names: seq<string>)
    ensures CollectedFrom(s, names) <==> s == MorphemesOfNames(names)
  {
    NamesByPosition(names);
    if CollectedFrom(s, names) {
      assert forall m :: m in s <==> m in MorphemesOfNames(names);
    }
  }

  /** The first name is a stem and a digit, the second the same stem and any one character. */
  ghost predicate StemAndDigit(one: string, two: string, stem: string, digit: char, rest: string) {
    digit in "0123456789" && one == stem + [digit] && two == stem + rest && (|rest| == 1 || two == "")
  }

  ghost predicate FilteredNames(one: string, two: string) {
    exists stem, digit, rest :: StemAndDigit(one, two, stem, digit, rest)
  }

  /** The filter on names written out. The last character of the second name may be any. */
  lemma SuffixCheckOnNames(one: string, two: string)
    requires one != ""
    ensures SuffixCheck(one, two) <==> FilteredNames(one, two)
  {
    var stem, last := one[..|one| - 1], one[|one| - 1];
    DigitMeaning(last);
    if SuffixCheck(one, two) {
      var rest := two[|Stem(two)|..];
      assert StemAndDigit(one, two, stem, last, rest);
    }
    if stem', digit, rest :| StemAndDigit(one, two, stem', digit, rest) {
      assert stem == stem' && last == digit;
      if two != "" {
        assert Stem(two) == stem';
      }
    }
  }

  // ------------------------------------------------------------------------------------------
  // A cover report
  // ------------------------------------------------------------------------------------------

  /** The arguments cover the parameters crosswise. */
  ghost predicate Crosswise(p1: set<string>, p2: set<string>, a1: set<string>, a2: set<string>) {
    p2 - p1 <= a1 - a2 && p1 - p2 <= a2 - a1
  }

  /** What the guards ask for, for arbitrary thresholds. */
  ghost predicate Guarded(opts: CheckerConfiguration, p1: set<string>, p2: set<string>, a1: set<string>, a2: set<string>) {
    |p1| == |p2| == |a1| == |a2| && p1 != p2 && a1 != a2
    && (opts.swappedMorphemeMatchMin <= 0.0 || (opts.swappedMorphemeMatchMin <= 1.0 && Crosswise(p1, p2, a1, a2)))
    && (opts.existingMorphemeMatchMax >= 1.0
        || (opts.existingMorphemeMatchMax >= 0.0 && p1 - p2 !! a1 - a2 && p2 - p1 !! a2 - a1))
  }

  lemma MatchScoreThresholds(a: set<string>, p: set<string>, bound: real)
    ensures MatchScore(a, p, Pessimistic) >= bound <==> bound <= 0.0 || (bound <= 1.0 && p <= a)
    ensures MatchScore(a, p, Optimistic) <= bound <==> bound >= 1.0 || (bound >= 0.0 && p !! a)
  {
  }

  lemma GuardsMeaning(opts: CheckerConfiguration, v: PairView)
    ensures CoverGuards(opts, v) <==> Guarded(opts, v.p1, v.p2, v.a1, v.a2)
  {
    var q1, q2 := v.p1 - v.p2, v.p2 - v.p1;
    var u1, u2 := v.a1 - v.a2, v.a2 - v.a1;
    MatchScoreThresholds(u1, q1, opts.existingMorphemeMatchMax);
    MatchScoreThresholds(u2, q2, opts.existingMorphemeMatchMax);
    MatchScoreThresholds(u1, q2, opts.swappedMorphemeMatchMin);
    MatchScoreThresholds(u2, q1, opts.swappedMorphemeMatchMin);
    if Guarded(opts, v.p1, v.p2, v.a1, v.a2) {
      SubsetOfSameSize(v.p1, v.p2);
      SubsetOfSameSize(v.a1, v.a2);
    }
    hide MatchScore;
  }

  /** The score of a pair: 100 for names that are covered crosswise, and otherwise 0. */
  ghost predicate ScoredBy(p1: set<string>, p2: set<string>, a1: set<string>, a2: set<string>, score: real) {
    score == if Crosswise(p1, p2, a1, a2) then 100.0 else 0.0
  }

  lemma WorstPsiMeaning(v: PairView)
    ensures ScoredBy(v.p1, v.p2, v.a1, v.a2, WorstPsi(v))
  {
    var q1, q2 := v.p1 - v.p2, v.p2 - v.p1;
    var u1, u2 := v.a1 - v.a2, v.a2 - v.a1;
    assert u1 !! u2 && q1 !! q2;
  }

  /** The parameters of two arguments have names. */
  ghost predicate NamedParams(site: CallSite, names: seq<string>, i: nat, j: nat) {
    site.callDecl.paramNames == Some(names) && i < |names| && j < |names| && names[i] != "" && names[j] != ""
  }

  /** Where the cover check gets as far as the last names of the arguments. */
  ghost predicate CoverCandidate(ck: Checker, site: CallSite, names: seq<string>, i: nat, j: nat, a1: set<string>, a2: set<string>) {
    && i < j < |site.positionalArgNames|
    && CollectedFrom(a1, site.positionalArgNames[i]) && CollectedFrom(a2, site.positionalArgNames[j])
    && NamedParams(site, names, i, j)
    && Guarded(ck.opts, Morphemes(names[i]), Morphemes(names[j]), a1, a2)
    && a1 != {} && a2 != {} && !FilteredNames(names[i], names[j])
  }

  function LastOf(names: seq<string>): string
    requires names != []
  {
    names[|names| - 1]
  }

  ghost predicate LastNamesPass(one: seq<string>, two: seq<string>) {
    one != [] && two != [] && LastOf(one) != "" && !FilteredNames(LastOf(one), LastOf(two))
  }

  /** Some morpheme of only one of the arguments is more common where it is. */
  ghost predicate HeldBack(ck: Checker, func: string, i: nat, j: nat, a1: set<string>, a2: set<string>) {
    var bound := ck.opts.coverSwappedStatsVettingThreshold;
    ck.stats.Some?
    && ((exists m :: m in a1 - a2 && MoreCommon(ck.stats.value, func, m, i, j, bound))
        || (exists m :: m in a2 - a1 && MoreCommon(ck.stats.value, func, m, j, i, bound)))
  }

  ghost predicate SomeConfidence(t: Table, func: string, i: nat, j: nat, a1: set<string>, a2: set<string>, c: real) {
    (exists m :: m in a1 - a2 && ConfidenceIs(t, func, m, i, j, c)) || (exists m :: m in a2 - a1 && ConfidenceIs(t, func, m, j, i, c))
  }

  /** The greatest number with a property, absent iff there is none. */
  ghost predicate IsGreatest(p: real -> bool, best: Option<real>) {
    match best
    case None => forall c :: !p(c)
    case Some(b) => p(b) && forall c :: p(c) ==> c <= b
  }

  lemma GreatestIsUnique(p: real -> bool, q: real -> bool, best: Option<real>)
    requires IsGreatest(p, best) && forall c :: p(c) <==> q(c)
    ensures forall other :: IsGreatest(q, other) <==> other == best
  {
    forall other
      ensures IsGreatest(q, other) <==> other == best
    {
      match (best, other)
      case (Some(x), Some(y)) => assert p(x) && (p(y) <==> q(y)) && (p(x) <==> q(x));
      case (None, Some(y)) => assert p(y) <==> q(y);
      case (Some(x), None) => assert p(x) <==> q(x);
      case (None, None) =>
    }
  }

  /** The vetted score is the greatest of the confidences, if there are any. */
  ghost predicate VettedBy(ck: Checker, func: string, i: nat, j: nat, a1: set<string>, a2: set<string>, score: Option<real>) {
    match ck.stats
    case None => score == None
    case Some(t) => IsGreatest(c => SomeConfidence(t, func, i, j, a1, a2, c), score)
  }

  ghost predicate CoverCard(ck: Checker, func: string, p1: set<string>, p2: set<string>, i: nat, j: nat,
                            a1: set<string>, a2: set<string>, r: SwapResult) {
    r.arg1 == i + 1 && r.arg2 == j + 1 && r.morphemes1 == a1 - a2 && r.morphemes2 == a2 - a1
    && r.score.ParameterNameBased?
    && ScoredBy(p1, p2, a1, a2, r.score.score) && VettedBy(ck, func, i, j, a1, a2, r.score.statsVettedScore)
  }

  /** The cover check reports arguments i and j, for parameters and arguments with these names and morphemes. */
  ghost predicate CoverCondition(ck: Checker, site: CallSite, names: seq<string>, i: nat, j: nat, a1: set<string>, a2: set<string>) {
    CoverCandidate(ck, site, names, i, j, a1, a2)
    && LastNamesPass(site.positionalArgNames[i], site.positionalArgNames[j])
    && !HeldBack(ck, site.callDecl.fullyQualifiedName, i, j, a1, a2)
  }

  /** `r` is its report. */
  ghost predicate CoverReport(ck: Checker, site: CallSite, names: seq<string>, i: nat, j: nat, a1: set<string>, a2: set<string>, r: SwapResult) {
    CoverCondition(ck, site, names, i, j, a1, a2)
    && CoverCard(ck, site.callDecl.fullyQualifiedName, Morphemes(names[i]), Morphemes(names[j]), i, j, a1, a2, r)
  }

  lemma ConfidencesOfView(t: Table, v: PairView)
    ensures forall c :: SomeConfidence(t, v.func, v.i, v.j, v.a1, v.a2, c) <==> HasConfidence(t, v, c)
  {
    forall c
      ensures SomeConfidence(t, v.func, v.i, v.j, v.a1, v.a2, c) <==> HasConfidence(t, v, c)
    {
      forall m, pos: nat, other: nat
        ensures Confidence(t, v.func, m, pos, other) == Some(c) <==> ConfidenceIs(t, v.func, m, pos, other, c)
      {
        ConfidenceMeaning(t, v.func, m, pos, other);
      }
      hide Confidence, ConfidenceIs;
    }
  }

  lemma VettedMeaning(ck: Checker, v: PairView, score: Option<real>)
    ensures VettedBy(ck, v.func, v.i, v.j, v.a1, v.a2, score) <==> score == VettedScore(ck.stats, v)
  {
    if ck.stats.Some? {
      var t := ck.stats.value;
      VettedScoreMeaning(t, v);
      ConfidencesOfView(t, v);
      var p, q := c => HasConfidence(t, v, c), c => SomeConfidence(t, v.func, v.i, v.j, v.a1, v.a2, c);
      hide HasConfidence, SomeConfidence, MaxOption, Confidences;
      assert forall c :: p(c) <==> HasConfidence(t, v, c);
      assert forall c :: q(c) <==> SomeConfidence(t, v.func, v.i, v.j, v.a1, v.a2, c);
      GreatestIsUnique(p, q, VettedScore(Some(t), v));
    }
  }

  /** The card of the view, with the scores the model computes. */
  lemma CardMeaning(ck: Checker, v: PairView, r: SwapResult)
    ensures CoverCard(ck, v.func, v.p1, v.p2, v.i, v.j, v.a1, v.a2, r) <==>
            r == SwapResult(v.i + 1, v.j + 1, v.a1 - v.a2, v.a2 - v.a1, ParameterNameBased(WorstPsi(v), VettedScore(ck.stats, v)))
  {
    WorstPsiMeaning(v);
    if r.score.ParameterNameBased? {
      VettedMeaning(ck, v, r.score.statsVettedScore);
    }
    hide WorstPsi, VettedBy, VettedScore, Crosswise;
  }

  lemma HeldBackMeaning(ck: Checker, v: PairView)
    ensures Suppressed(ck, v) <==> HeldBack(ck, v.func, v.i, v.j, v.a1, v.a2)
  {
    SuppressedIff(ck, v);
    if ck.stats.Some? {
      forall m, pos: nat, other: nat, bound
        ensures ConfidenceExceeds(ck.stats.value, v.func, m, pos, other, bound) <==> MoreCommon(ck.stats.value, v.func, m, pos, other, bound)
      {
        MoreCommonMeaning(ck.stats.value, v.func, m, pos, other, bound);
      }
    }
    hide Suppressed, ConfidenceExceeds, MoreCommon;
  }

  // ------------------------------------------------------------------------------------------
  // A statistics report
  // ------------------------------------------------------------------------------------------

  /** The arguments differ in the morphemes m1 and m2 and the checks look at them. */
  ghost predicate StatsCandidate(site: CallSite, i: nat, j: nat, a1: set<string>, a2: set<string>, m1: string, m2: string) {
    && i < j < |site.positionalArgNames|
    && CollectedFrom(a1, site.positionalArgNames[i]) && CollectedFrom(a2, site.positionalArgNames[j])
    && (forall names :: NamedParams(site, names, i, j) ==> Morphemes(names[i]) != {} && Morphemes(names[j]) != {})
    && a1 - a2 == {m1} && a2 - a1 == {m2}
  }

  /** Each of the two belongs at the other's position. */
  ghost predicate Misplaced(t: Table, func: string, i: nat, j: nat, m1: string, m2: string, confidence: real, fitness: real) {
    MoreCommon(t, func, m1, j, i, confidence) && MoreCommon(t, func, m2, i, j, confidence)
    && RowSum(t, func, j, m1) > fitness && RowSum(t, func, i, m2) > fitness
  }

  /** The statistics check reports arguments i and j. */
  ghost predicate StatsCondition(ck: Checker, site: CallSite, i: nat, j: nat, a1: set<string>, a2: set<string>, m1: string, m2: string) {
    ck.stats.Some? && StatsCandidate(site, i, j, a1, a2, m1, m2)
    && Misplaced(ck.stats.value, site.callDecl.fullyQualifiedName, i, j, m1, m2,
                 ck.opts.statsSwappedMorphemeThreshold, ck.opts.statsSwappedFitnessThreshold)
  }

  ghost predicate StatsCard(t: Table, func: string, i: nat, j: nat, m1: string, m2: string, r: SwapResult) {
    r.arg1 == i + 1 && r.arg2 == j + 1 && r.morphemes1 == {m1} && r.morphemes2 == {m2}
    && r.score.UsageStatisticsBased?
    && r.score.fit1 == RowSum(t, func, j, m1) && r.score.fit2 == RowSum(t, func, i, m2)
    && ConfidenceIs(t, func, m1, j, i, r.score.psi1) && ConfidenceIs(t, func, m2, i, j, r.score.psi2)
  }

  /** `r` is its report. */
  ghost predicate StatsReportOf(ck: Checker, site: CallSite, i: nat, j: nat, a1: set<string>, a2: set<string>,
                                m1: string, m2: string, r: SwapResult) {
    StatsCondition(ck, site, i, j, a1, a2, m1, m2)
    && StatsCard(ck.stats.value, site.callDecl.fullyQualifiedName, i, j, m1, m2, r)
  }

  // ------------------------------------------------------------------------------------------
  // Agreement on one pair
  // ------------------------------------------------------------------------------------------

  /** Which parameters the view has names for. */
  lemma NamesOfView(site: CallSite, i: nat, j: nat, names: seq<string>)
    requires site.callDecl.paramNames == Some(names)
    ensures BothNamed(View(site, i, j)) <==> NamedParams(site, names, i, j)
    ensures BothNamed(View(site, i, j)) ==>
              && View(site, i, j).p1 == Morphemes(names[i]) && View(site, i, j).p2 == Morphemes(names[j])
              && View(site, i, j).param1 == Some(names[i]) && View(site, i, j).param2 == Some(names[j])
  {
  }

  lemma UnnamedView(site: CallSite, i: nat, j: nat)
    requires site.callDecl.paramNames.None?
    ensures !BothNamed(View(site, i, j)) && forall names :: !NamedParams(site, names, i, j)
  {
  }

  /** The candidates of the cover check, in terms of the view. */
  lemma CandidateMeaning(ck: Checker, site: CallSite, names: seq<string>, i: nat, j: nat, a1: set<string>, a2: set<string>)
    requires i < j < |site.positionalArgNames|
    ensures var v := View(site, i, j);
            CoverCandidate(ck, site, names, i, j, a1, a2) <==>
            site.callDecl.paramNames == Some(names) && a1 == v.a1 && a2 == v.a2 && BothNamed(v)
            && CoverGuards(ck.opts, v) && v.a1 != {} && v.a2 != {} && !Filtered(v.param1, v.param2)
  {
    var v := View(site, i, j);
    CollectedIsUnique(a1, site.positionalArgNames[i]);
    CollectedIsUnique(a2, site.positionalArgNames[j]);
    GuardsMeaning(ck.opts, v);
    if site.callDecl.paramNames == Some(names) {
      NamesOfView(site, i, j, names);
      if NamedParams(site, names, i, j) {
        SuffixCheckOnNames(names[i], names[j]);
      }
    }
    hide CollectedFrom, MorphemesOfNames, Morphemes, CoverGuards, Guarded, SuffixCheck, FilteredNames, ParamMorphemes;
  }

  lemma LastNamesMeaning(site: CallSite, i: nat, j: nat)
    requires i < j < |site.positionalArgNames|
    ensures var v := View(site, i, j);
            LastNamesPass(site.positionalArgNames[i], site.positionalArgNames[j]) <==>
            v.last1.Some? && v.last2.Some? && v.last1.value != "" && !SuffixCheck(v.last1.value, v.last2.value)
  {
    var one, two := site.positionalArgNames[i], site.positionalArgNames[j];
    if one != [] && two != [] && LastOf(one) != "" {
      SuffixCheckOnNames(LastOf(one), LastOf(two));
    }
    hide SuffixCheck, FilteredNames;
  }

  lemma GuardedAreNonempty(opts: CheckerConfiguration, v: PairView)
    requires CoverGuards(opts, v) && v.a1 != {}
    ensures v.p1 != {} && v.p2 != {} && v.a2 != {}
  {
  }

  /** What is left of the cover check on a candidate. */
  lemma CandidateVerdict(ck: Checker, v: PairView)
    requires BothNamed(v) && CoverGuards(ck.opts, v) && v.a1 != {} && v.a2 != {} && !Filtered(v.param1, v.param2)
    requires v.last1.Some? && v.last2.Some?
    ensures VerdictOf(ck, v, CoverBased) ==
            if v.last1.value == "" then Fault
            else if SuffixCheck(v.last1.value, v.last2.value) || Suppressed(ck, v) then Silent
            else Report(SwapResult(v.i + 1, v.j + 1, v.a1 - v.a2, v.a2 - v.a1, ParameterNameBased(WorstPsi(v), VettedScore(ck.stats, v))))
  {
    GuardedAreNonempty(ck.opts, v);
    hide CoverGuards, SuffixCheck, Suppressed, WorstPsi, VettedScore;
  }

  lemma LastOfView(site: CallSite, i: nat, j: nat)
    requires i < j < |site.positionalArgNames| && View(site, i, j).a1 != {} && View(site, i, j).a2 != {}
    ensures site.positionalArgNames[i] != [] && site.positionalArgNames[j] != []
    ensures View(site, i, j).last1 == Some(LastOf(site.positionalArgNames[i]))
    ensures View(site, i, j).last2 == Some(LastOf(site.positionalArgNames[j]))
  {
  }

  lemma CoverReportMeaning(ck: Checker, site: CallSite, names: seq<string>, i: nat, j: nat, a1: set<string>, a2: set<string>, r: SwapResult)
    requires i < j < |site.positionalArgNames| && CoverCandidate(ck, site, names, i, j, a1, a2)
    ensures CoverReport(ck, site, names, i, j, a1, a2, r) <==> VerdictOf(ck, View(site, i, j), CoverBased) == Report(r)
    ensures site.positionalArgNames[i] != []
    ensures VerdictOf(ck, View(site, i, j), CoverBased) == Fault <==> LastOf(site.positionalArgNames[i]) == ""
  {
    var v := View(site, i, j);
    CandidateMeaning(ck, site, names, i, j, a1, a2);
    NamesOfView(site, i, j, names);
    LastOfView(site, i, j);
    CandidateVerdict(ck, v);
    LastNamesMeaning(site, i, j);
    HeldBackMeaning(ck, v);
    CardMeaning(ck, v, r);
    hide CoverCandidate, CoverGuards, SuffixCheck, FilteredNames, HeldBack, Suppressed, CoverCard, WorstPsi, VettedScore, LastNamesPass, VerdictOf, View;
  }

  /** The arguments at i and j are a candidate, whatever the names are. */
  ghost predicate SomeCandidate(ck: Checker, site: CallSite, i: nat, j: nat) {
    exists names, a1, a2 :: CoverCandidate(ck, site, names, i, j, a1, a2)
  }

  lemma NoCandidateIsSilent(ck: Checker, site: CallSite, i: nat, j: nat)
    requires i < j < |site.positionalArgNames| && !SomeCandidate(ck, site, i, j)
    ensures VerdictOf(ck, View(site, i, j), CoverBased) == Silent
  {
    var v := View(site, i, j);
    if site.callDecl.paramNames.Some? {
      CandidateMeaning(ck, site, site.callDecl.paramNames.value, i, j, v.a1, v.a2);
    } else {
      UnnamedView(site, i, j);
    }
    hide CoverCandidate, CoverGuards, View;
  }

  ghost predicate CoverReported(ck: Checker, site: CallSite, i: nat, j: nat, r: SwapResult) {
    exists names, a1, a2 :: CoverReport(ck, site, names, i, j, a1, a2, r)
  }

  ghost predicate StatsReported(ck: Checker, site: CallSite, i: nat, j: nat, r: SwapResult) {
    exists a1, a2, m1, m2 :: StatsReportOf(ck, site, i, j, a1, a2, m1, m2, r)
  }

  lemma CoverVerdictIff(ck: Checker, site: CallSite, i: nat, j: nat, r: SwapResult)
    requires i < j < |site.positionalArgNames|
    ensures VerdictOf(ck, View(site, i, j), CoverBased) == Report(r) <==> CoverReported(ck, site, i, j, r)
    ensures VerdictOf(ck, View(site, i, j), CoverBased) == Fault <==>
            SomeCandidate(ck, site, i, j) && site.positionalArgNames[i] != [] && LastOf(site.positionalArgNames[i]) == ""
  {
    if names, a1, a2 :| CoverCandidate(ck, site, names, i, j, a1, a2) {
      CoverReportMeaning(ck, site, names, i, j, a1, a2, r);
    } else {
      NoCandidateIsSilent(ck, site, i, j);
    }
    forall names, a1, a2 | CoverReport(ck, site, names, i, j, a1, a2, r)
      ensures CoverCandidate(ck, site, names, i, j, a1, a2) && VerdictOf(ck, View(site, i, j), CoverBased) == Report(r)
    {
      CoverReportMeaning(ck, site, names, i, j, a1, a2, r);
    }
    hide CoverCandidate, CoverReport, VerdictOf, View;
  }

  /** The pairs that the statistics check looks at. */
  ghost predicate Usable(v: PairView) {
    v.a1 != {} && v.a2 != {} && (BothNamed(v) ==> v.p1 != {} && v.p2 != {})
  }

  lemma UsableMeaning(site: CallSite, i: nat, j: nat)
    ensures var v := View(site, i, j);
            Usable(v) <==>
            v.a1 != {} && v.a2 != {}
            && forall names :: NamedParams(site, names, i, j) ==> Morphemes(names[i]) != {} && Morphemes(names[j]) != {}
  {
    if site.callDecl.paramNames.Some? {
      NamesOfView(site, i, j, site.callDecl.paramNames.value);
    } else {
      UnnamedView(site, i, j);
    }
    hide View, Morphemes;
  }

  lemma StatsVerdictOfView(ck: Checker, v: PairView)
    ensures VerdictOf(ck, v, StatsBased) ==
            if Usable(v) && ck.stats.Some? then StatsVerdict(ck.stats.value, ck.opts, v) else Silent
  {
  }

  /** The condition, in terms of the view. */
  lemma StatsConditionMeaning(ck: Checker, site: CallSite, i: nat, j: nat, a1: set<string>, a2: set<string>, m1: string, m2: string)
    requires i < j < |site.positionalArgNames|
    ensures var v := View(site, i, j);
            StatsCondition(ck, site, i, j, a1, a2, m1, m2) <==>
            ck.stats.Some? && a1 == v.a1 && a2 == v.a2 && Usable(v) && StatsSwap(ck.stats.value, ck.opts, v, m1, m2)
  {
    var v := View(site, i, j);
    CollectedIsUnique(a1, site.positionalArgNames[i]);
    CollectedIsUnique(a2, site.positionalArgNames[j]);
    UsableMeaning(site, i, j);
    assert m1 in {m1} && m2 in {m2};
    if ck.stats.Some? {
      MoreCommonMeaning(ck.stats.value, v.func, m1, j, i, ck.opts.statsSwappedMorphemeThreshold);
      MoreCommonMeaning(ck.stats.value, v.func, m2, i, j, ck.opts.statsSwappedMorphemeThreshold);
      FitnessIsRowSum(ck.stats.value, v.func, j, m1);
      FitnessIsRowSum(ck.stats.value, v.func, i, m2);
    }
    hide CollectedFrom, MorphemesOfNames, Morphemes, ConfidenceExceeds, MoreCommon, Fitness, RowSum, Usable;
  }

  lemma StatsReportOfSwap(ck: Checker, v: PairView, m1: string, m2: string, r: SwapResult)
    requires ck.stats.Some? && StatsSwap(ck.stats.value, ck.opts, v, m1, m2)
    ensures StatsVerdict(ck.stats.value, ck.opts, v) == Report(r) <==> StatsCard(ck.stats.value, v.func, v.i, v.j, m1, m2, r)
    ensures StatsVerdict(ck.stats.value, ck.opts, v).Report?
  {
    var t := ck.stats.value;
    StatsSwapIsUnique(t, ck.opts, v, m1, m2);
    var n1, n2 := StatsReportMeaning(t, ck.opts, v);
    assert n1 in {m1} && n2 in {m2};
    ConfidenceMeaning(t, v.func, m1, v.j, v.i);
    ConfidenceMeaning(t, v.func, m2, v.i, v.j);
    FitnessIsRowSum(t, v.func, v.j, m1);
    FitnessIsRowSum(t, v.func, v.i, m2);
    hide StatsVerdict, StatsReport, Confidence, ConfidenceIs, Fitness, RowSum;
  }

  lemma StatsVerdictIff(ck: Checker, site: CallSite, i: nat, j: nat, r: SwapResult)
    requires i < j < |site.positionalArgNames|
    ensures VerdictOf(ck, View(site, i, j), StatsBased) == Report(r) <==> StatsReported(ck, site, i, j, r)
  {
    var v := View(site, i, j);
    StatsVerdictOfView(ck, v);
    if VerdictOf(ck, v, StatsBased) == Report(r) {
      var m1, m2 := StatsReportMeaning(ck.stats.value, ck.opts, v);
      StatsConditionMeaning(ck, site, i, j, v.a1, v.a2, m1, m2);
      StatsReportOfSwap(ck, v, m1, m2, r);
      assert StatsReportOf(ck, site, i, j, v.a1, v.a2, m1, m2, r);
    }
    if a1, a2, m1, m2 :| StatsReportOf(ck, site, i, j, a1, a2, m1, m2, r) {
      StatsConditionMeaning(ck, site, i, j, a1, a2, m1, m2);
      StatsReportOfSwap(ck, v, m1, m2, r);
    }
    hide View, VerdictOf, StatsVerdict, StatsSwap, StatsCondition, StatsCard;
  }

  // ------------------------------------------------------------------------------------------
  // Agreement on call sites
  // ------------------------------------------------------------------------------------------

  /** `r` is what a mode reports about arguments i and j: mode All prefers the cover report. */
  ghost predicate Reported(ck: Checker, site: CallSite, mode: Check, i: nat, j: nat, r: SwapResult) {
    match mode
    case CoverBased => CoverReported(ck, site, i, j, r)
    case StatsBased => StatsReported(ck, site, i, j, r)
    case All =>
      CoverReported(ck, site, i, j, r)
      || (StatsReported(ck, site, i, j, r) && forall c :: !CoverReported(ck, site, i, j, c))
  }

  /** Reading the last name of argument i finds it empty, after all that comes before has passed. */
  ghost predicate Undefined(ck: Checker, site: CallSite, mode: Check, i: nat, j: nat) {
    mode != StatsBased && i < j < |site.positionalArgNames|
    && SomeCandidate(ck, site, i, j) && site.positionalArgNames[i] != [] && LastOf(site.positionalArgNames[i]) == ""
  }

  lemma UndefinedIsInside(ck: Checker, site: CallSite, mode: Check, i: nat, j: nat)
    requires Undefined(ck, site, mode, i, j)
    ensures i < j < |site.positionalArgNames|
  {
  }

  function SomeResult(): SwapResult {
    SwapResult(0, 0, {}, {}, ParameterNameBased(0.0, None))
  }

  lemma UndefinedIff(ck: Checker, site: CallSite, mode: Check, i: nat, j: nat)
    requires i < j < |site.positionalArgNames|
    ensures VerdictOf(ck, View(site, i, j), mode) == Fault <==> Undefined(ck, site, mode, i, j)
  {
    CoverVerdictIff(ck, site, i, j, SomeResult());
    AllIsCoverElseStats(ck, View(site, i, j));
    hide View, VerdictOf, SomeCandidate;
  }

  lemma PairIff(ck: Checker, site: CallSite, mode: Check, i: nat, j: nat, r: SwapResult)
    requires i < j < |site.positionalArgNames| && VerdictOf(ck, View(site, i, j), mode) != Fault
    ensures VerdictOf(ck, View(site, i, j), mode) == Report(r) <==> Reported(ck, site, mode, i, j, r)
  {
    var cover := VerdictOf(ck, View(site, i, j), CoverBased);
    CoverVerdictIff(ck, site, i, j, r);
    StatsVerdictIff(ck, site, i, j, r);
    AllIsCoverElseStats(ck, View(site, i, j));
    if cover.Report? {
      CoverVerdictIff(ck, site, i, j, cover.result);
    } else {
      forall c
        ensures !CoverReported(ck, site, i, j, c)
      {
        CoverVerdictIff(ck, site, i, j, c);
      }
    }
    hide View, VerdictOf, CoverReported, StatsReported;
  }

  /** A run fails an assertion or reads what is not there exactly when there are too many arguments for
      32 bits or the last name of some candidate is empty. */
  lemma FaultedIffUndefined(ck: Checker, site: CallSite, mode: Check)
    ensures SiteOutcome(ck, site, mode) == Faulted <==>
            |site.positionalArgNames| > 0xFFFF_FFFF || exists i, j :: Undefined(ck, site, mode, i, j)
  {
    hide SiteOutcome, VerdictOf, View, Undefined;
    FaultedIff(ck, site, mode);
    if p: Pair :| p.0 < p.1 < |site.positionalArgNames| && Verdicts(ck, site, mode)(p) == Fault {
      UndefinedIff(ck, site, mode, p.0, p.1);
    }
    forall i: nat, j: nat | Undefined(ck, site, mode, i, j)
      ensures i < j < |site.positionalArgNames| && Verdicts(ck, site, mode)((i, j)) == Fault
    {
      UndefinedIsInside(ck, site, mode, i, j);
      UndefinedIff(ck, site, mode, i, j);
    }
  }

  lemma ReportedIsInside(ck: Checker, site: CallSite, mode: Check, i: nat, j: nat, r: SwapResult)
    requires Reported(ck, site, mode, i, j, r)
    ensures i < j < |site.positionalArgNames| && r.arg1 == i + 1 && r.arg2 == j + 1
  {
    hide CollectedFrom, Guarded, MoreCommon, ConfidenceIs, LastNamesPass, HeldBack, NamedParams, FilteredNames;
  }

  /** The results of a completed run are exactly the reports written out above, in order. */
  lemma ResultsAreReported(ck: Checker, site: CallSite, mode: Check)
    requires SiteOutcome(ck, site, mode).Completed?
    ensures InOrder(SiteOutcome(ck, site, mode).results)
    ensures forall r :: r in SiteOutcome(ck, site, mode).results <==> exists i, j :: Reported(ck, site, mode, i, j, r)
  {
    hide SiteOutcome, VerdictOf, View, Reported;
    FaultedIff(ck, site, mode);
    OutcomeMeaning(ck, site, mode);
    VerdictsNameTheirPair(ck, site, mode);
    var rs := SiteOutcome(ck, site, mode).results;
    forall r
      ensures r in rs <==> exists i, j :: Reported(ck, site, mode, i, j, r)
    {
      if r in rs {
        var p := PairOf(r);
        PairIff(ck, site, mode, p.0, p.1, r);
      }
      if i, j :| Reported(ck, site, mode, i, j, r) {
        ReportedIsInside(ck, site, mode, i, j, r);
        assert Verdicts(ck, site, mode)((i, j)) != Fault;
        PairIff(ck, site, mode, i, j, r);
        assert Verdicts(ck, site, mode)((i, j)).Report?;
      }
    }
  }

  // ------------------------------------------------------------------------------------------
  // Which pairs are reported
  // ------------------------------------------------------------------------------------------

  lemma CoverCardExists(ck: Checker, site: CallSite, names: seq<string>, i: nat, j: nat, a1: set<string>, a2: set<string>)
    returns (r: SwapResult)
    requires CoverCondition(ck, site, names, i, j, a1, a2)
    ensures CoverReport(ck, site, names, i, j, a1, a2, r)
  {
    var v := View(site, i, j);
    CandidateMeaning(ck, site, names, i, j, a1, a2);
    NamesOfView(site, i, j, names);
    r := SwapResult(v.i + 1, v.j + 1, v.a1 - v.a2, v.a2 - v.a1, ParameterNameBased(WorstPsi(v), VettedScore(ck.stats, v)));
    CardMeaning(ck, v, r);
    hide CoverCandidate, CoverGuards, CoverCard, WorstPsi, VettedScore, LastNamesPass, HeldBack;
  }

  /** The cover check reports a pair exactly when its condition holds: a card can always be made out. */
  lemma CoverPairsIff(ck: Checker, site: CallSite, p: Pair)
    requires SiteOutcome(ck, site, CoverBased).Completed?
    ensures ReportsPair(SiteOutcome(ck, site, CoverBased).results, p) <==>
            exists names, a1, a2 :: CoverCondition(ck, site, names, p.0, p.1, a1, a2)
  {
    hide SiteOutcome, Verdicts, CoverCondition, CoverCard;
    ResultsAreReported(ck, site, CoverBased);
    forall i: nat, j: nat, r | Reported(ck, site, CoverBased, i, j, r)
      ensures r.arg1 == i + 1 && r.arg2 == j + 1
    {
      ReportedIsInside(ck, site, CoverBased, i, j, r);
    }
    if names, a1, a2 :| CoverCondition(ck, site, names, p.0, p.1, a1, a2) {
      var r := CoverCardExists(ck, site, names, p.0, p.1, a1, a2);
      assert CoverReported(ck, site, p.0, p.1, r);
      assert Reported(ck, site, CoverBased, p.0, p.1, r) && r.arg1 == p.0 + 1 && r.arg2 == p.1 + 1;
    }
  }

  lemma StatsCardExists(ck: Checker, site: CallSite, i: nat, j: nat, a1: set<string>, a2: set<string>, m1: string, m2: string)
    returns (r: SwapResult)
    requires StatsCondition(ck, site, i, j, a1, a2, m1, m2)
    ensures StatsReportOf(ck, site, i, j, a1, a2, m1, m2, r)
  {
    var v := View(site, i, j);
    StatsConditionMeaning(ck, site, i, j, a1, a2, m1, m2);
    StatsSwapIsUnique(ck.stats.value, ck.opts, v, m1, m2);
    r := StatsVerdict(ck.stats.value, ck.opts, v).result;
    StatsReportOfSwap(ck, v, m1, m2, r);
    hide StatsCondition, StatsVerdict, StatsSwap, StatsCard;
  }

  /** The statistics check reports a pair exactly when its condition holds. */
  lemma StatsPairsIff(ck: Checker, site: CallSite, p: Pair)
    requires SiteOutcome(ck, site, StatsBased).Completed?
    ensures ReportsPair(SiteOutcome(ck, site, StatsBased).results, p) <==>
            exists a1, a2, m1, m2 :: StatsCondition(ck, site, p.0, p.1, a1, a2, m1, m2)
  {
    hide SiteOutcome, Verdicts, StatsCondition, StatsCard;
    ResultsAreReported(ck, site, StatsBased);
    forall i: nat, j: nat, r | Reported(ck, site, StatsBased, i, j, r)
      ensures r.arg1 == i + 1 && r.arg2 == j + 1
    {
      ReportedIsInside(ck, site, StatsBased, i, j, r);
    }
    if a1, a2, m1, m2 :| StatsCondition(ck, site, p.0, p.1, a1, a2, m1, m2) {
      var r := StatsCardExists(ck, site, p.0, p.1, a1, a2, m1, m2);
      assert StatsReported(ck, site, p.0, p.1, r);
      assert Reported(ck, site, StatsBased, p.0, p.1, r) && r.arg1 == p.0 + 1 && r.arg2 == p.1 + 1;
    }
  }

  lemma CoverReportIsNamed(ck: Checker, site: CallSite, names: seq<string>, i: nat, j: nat, a1: set<string>, a2: set<string>, r: SwapResult)
    requires CoverReport(ck, site, names, i, j, a1, a2, r)
    ensures site.callDecl.paramNames == Some(names) && i < j < |names| && names[i] != "" && names[j] != ""
    ensures r.arg1 == i + 1 && r.arg2 == j + 1
    ensures ck.opts.swappedMorphemeMatchMin > 0.0 ==>
              Morphemes(names[j]) - Morphemes(names[i]) <= r.morphemes1 && Morphemes(names[i]) - Morphemes(names[j]) <= r.morphemes2
  {
    hide CollectedFrom, Morphemes, HeldBack, LastNamesPass, FilteredNames, ScoredBy, VettedBy;
  }

  lemma CoverCardIsCover(ck: Checker, site: CallSite, mode: Check, i: nat, j: nat, r: SwapResult)
    requires Reported(ck, site, mode, i, j, r) && r.score.ParameterNameBased?
    ensures CoverReported(ck, site, i, j, r)
  {
    hide CoverReport, StatsCondition;
  }

  /** A parameter-name based result is about two declared, named parameters, whose morphemes it finds
      crossed: no argument beyond the declared parameters is ever in one. */
  lemma CoverResultsAreNamed(ck: Checker, site: CallSite, mode: Check, r: SwapResult) returns (names: seq<string>)
    requires SiteOutcome(ck, site, mode).Completed? && r in SiteOutcome(ck, site, mode).results
    requires r.score.ParameterNameBased?
    ensures site.callDecl.paramNames == Some(names) && 1 <= r.arg1 < r.arg2 <= |names|
    ensures names[r.arg1 - 1] != "" && names[r.arg2 - 1] != ""
    ensures ck.opts.swappedMorphemeMatchMin > 0.0 ==>
              Morphemes(names[r.arg2 - 1]) - Morphemes(names[r.arg1 - 1]) <= r.morphemes1
              && Morphemes(names[r.arg1 - 1]) - Morphemes(names[r.arg2 - 1]) <= r.morphemes2
  {
    hide SiteOutcome, CoverReport, Morphemes, Reported, Verdicts;
    ResultsAreReported(ck, site, mode);
    var i: nat, j: nat :| Reported(ck, site, mode, i, j, r);
    CoverCardIsCover(ck, site, mode, i, j, r);
    var a1, a2;
    names, a1, a2 :| CoverReport(ck, site, names, i, j, a1, a2, r);
    CoverReportIsNamed(ck, site, names, i, j, a1, a2, r);
  }

  // ------------------------------------------------------------------------------------------
  // The default thresholds
  // ------------------------------------------------------------------------------------------

  /** With the defaults, the guards ask for names that are covered crosswise. */
  lemma DefaultGuards(p1: set<string>, p2: set<string>, a1: set<string>, a2: set<string>)
    ensures Guarded(DEFAULT_CONFIGURATION, p1, p2, a1, a2) <==>
            |p1| == |p2| == |a1| == |a2| && p1 != p2 && a1 != a2 && Crosswise(p1, p2, a1, a2)
  {
    assert p1 - p2 !! p2 - p1 && a1 - a2 !! a2 - a1;
  }

  /** The three statistical thresholds are three quarters. */
  lemma DefaultStatistics(ck: Checker, site: CallSite, i: nat, j: nat, a1: set<string>, a2: set<string>, m1: string, m2: string)
    requires ck.opts == DEFAULT_CONFIGURATION && ck.stats.Some?
    ensures var t, func := ck.stats.value, site.callDecl.fullyQualifiedName;
            (StatsCondition(ck, site, i, j, a1, a2, m1, m2) <==>
               StatsCandidate(site, i, j, a1, a2, m1, m2) && Misplaced(t, func, i, j, m1, m2, 0.75, 0.75))
            && (HeldBack(ck, func, i, j, a1, a2) <==>
                  (exists m :: m in a1 - a2 && MoreCommon(t, func, m, i, j, 0.75))
                  || (exists m :: m in a2 - a1 && MoreCommon(t, func, m, j, i, 0.75)))
  {
    hide MoreCommon, StatsCandidate, RowSum;
  }
}
