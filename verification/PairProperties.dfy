/** What a verdict on one pair of arguments means, for every configuration and every table. */
module PairProperties {
  import opened Wrappers
  import opened UsageStatistics
  import opened CallSites
  import opened PairChecks

  // ------------------------------------------------------------------------------------------
  // Cover-based check
  // ------------------------------------------------------------------------------------------

  /** The arguments carry exactly the morphemes that would tell the two parameters apart, crosswise. */
  ghost predicate CoverSwap(v: PairView) {
    |v.p1| == |v.p2| == |v.a1| == |v.a2|
    && v.p1 != v.p2
    && v.p2 - v.p1 <= v.a1 - v.a2
    && v.p1 - v.p2 <= v.a2 - v.a1
  }

  lemma SubsetOfSameSize<T>(s: set<T>, t: set<T>)
    requires |s| == |t| && s != t
    ensures s - t != {} && t - s != {}
  {
    assert s == s * t + (s - t) && t == s * t + (t - s);
  }

  /**
   The guards come down to `CoverSwap`: the two optimistic ones are implied by the two pessimistic
   ones, so the maximum match at the current places matters only by not being negative.
   */
  lemma CoverGuardsIff(opts: CheckerConfiguration, v: PairView)
    requires opts.swappedMorphemeMatchMin > 0.0
    ensures CoverGuards(opts, v) <==>
            CoverSwap(v) && opts.existingMorphemeMatchMax >= 0.0 && opts.swappedMorphemeMatchMin <= 1.0
  {
    var q1, q2 := v.p1 - v.p2, v.p2 - v.p1;
    var u1, u2 := v.a1 - v.a2, v.a2 - v.a1;
    if CoverSwap(v) {
      SubsetOfSameSize(v.p1, v.p2);
      assert u1 !! q1 && u2 !! q2;
    }
    if CoverGuards(opts, v) {
      assert q2 <= u1 && q1 <= u2;
      assert q1 !! u1;
    }
  }

  /** The numeric suffix filter on names that may be missing. */
  predicate Filtered(one: Option<string>, two: Option<string>) {
    one.Some? && two.Some? && one.value != "" && SuffixCheck(one.value, two.value)
  }

  /**
   When the cover check reports, exactly: the morphemes are crossed, no numeric suffix filter
   applies, and the statistics do not object. The score of a report is always 100.
   */
  lemma CoverReportIff(ck: Checker, v: PairView)
    requires ck.opts.swappedMorphemeMatchMin > 0.0
    requires CoverVerdict(ck, v) != Fault
    ensures CoverVerdict(ck, v).Report? <==>
            CoverSwap(v) && ck.opts.existingMorphemeMatchMax >= 0.0 && ck.opts.swappedMorphemeMatchMin <= 1.0
            && !Filtered(v.param1, v.param2) && !Filtered(v.last1, v.last2)
            && !Suppressed(ck, v)
    ensures CoverVerdict(ck, v).Report? ==>
              CoverVerdict(ck, v).result ==
              SwapResult(v.i + 1, v.j + 1, v.a1 - v.a2, v.a2 - v.a1,
                         ParameterNameBased(100.0, VettedScore(ck.stats, v)))
  {
    CoverGuardsIff(ck.opts, v);
    if CoverGuards(ck.opts, v) {
      assert v.p2 - v.p1 !! v.a2 - v.a1 && v.p1 - v.p2 !! v.a1 - v.a2;
      assert WorstPsi(v) == 1.0 / 0.01;
    }
  }

  /** What the properties of repairs use of a cover report. */
  lemma CoverReportCrosses(ck: Checker, v: PairView)
    requires ck.opts.swappedMorphemeMatchMin > 0.0
    requires CoverVerdict(ck, v).Report?
    ensures CoverSwap(v) && !Suppressed(ck, v)
  {
  }

  // ------------------------------------------------------------------------------------------
  // Numeric suffixes
  // ------------------------------------------------------------------------------------------

  predicate NotNumbered(name: Option<string>) {
    name.Some? && name.value != "" && !EndsInDigit(name.value)
  }

  lemma DigitMeaning(c: char)
    ensures IsDigit(c) <==> c in "0123456789"
  {
    var digits := "0123456789";
    assert digits[0] == '0' && digits[1] == '1' && digits[2] == '2' && digits[3] == '3' && digits[4] == '4';
    assert digits[5] == '5' && digits[6] == '6' && digits[7] == '7' && digits[8] == '8' && digits[9] == '9';
    if IsDigit(c) {
      assert digits[c as int - '0' as int] == c;
    }
  }

  ghost predicate StemNumbered(one: string, two: string, stem: string, d1: char, d2: char) {
    d1 in "0123456789" && d2 in "0123456789" && one == stem + [d1] && two == stem + [d2]
  }

  /** The same stem with a digit each. */
  ghost predicate SameStemNumbered(one: string, two: string) {
    exists stem, d1, d2 :: StemNumbered(one, two, stem, d1, d2)
  }

  lemma SameStemNumberedMeaning(one: string, two: string)
    ensures SameStemNumbered(one, two) <==> EndsInDigit(one) && EndsInDigit(two) && Stem(one) == Stem(two)
  {
    if one != "" && two != "" {
      var d1, d2 := one[|one| - 1], two[|two| - 1];
      DigitMeaning(d1);
      DigitMeaning(d2);
      if EndsInDigit(one) && EndsInDigit(two) && Stem(one) == Stem(two) {
        assert StemNumbered(one, two, Stem(one), d1, d2);
      }
    }
    if stem, d1, d2 :| StemNumbered(one, two, stem, d1, d2) {
      assert Stem(one) == stem == Stem(two);
    }
  }

  /** No pair whose parameter names, or whose last argument names, differ only in a final digit is
      ever reported by the cover check. */
  lemma NumberedNamesAreFiltered(ck: Checker, v: PairView)
    requires (v.param1.Some? && v.param2.Some? && SameStemNumbered(v.param1.value, v.param2.value))
             || (v.last1.Some? && v.last2.Some? && SameStemNumbered(v.last1.value, v.last2.value))
    ensures !CoverVerdict(ck, v).Report?
  {
    SameStemNumberedMeaning(NameOr(v.param1), NameOr(v.param2));
    SameStemNumberedMeaning(NameOr(v.last1), NameOr(v.last2));
  }

  /** The filter reads both suffix characters from the first name. It does what is meant exactly
      when a numbered first name with the stem of the second comes with a numbered second. */
  lemma SuffixCheckIff(one: string, two: string)
    requires one != ""
    ensures SuffixCheck(one, two) == SameStemNumbered(one, two) <==>
            (EndsInDigit(one) && Stem(one) == Stem(two) ==> EndsInDigit(two))
  {
    SameStemNumberedMeaning(one, two);
  }

  /** The filter depends on the order of the names unless equal stems come with equal final digits. */
  lemma SuffixCheckIsSymmetricIff(one: string, two: string)
    requires one != "" && two != ""
    ensures SuffixCheck(one, two) == SuffixCheck(two, one) <==>
            (Stem(one) == Stem(two) ==> (EndsInDigit(one) <==> EndsInDigit(two)))
  {
  }

  /** Names on which it does. */
  lemma SuffixCheckIsNotSymmetric()
    ensures SuffixCheck("size1", "sizes") && !SuffixCheck("sizes", "size1")
    ensures !SameStemNumbered("size1", "sizes") && !SameStemNumbered("sizes", "size1")
  {
    SameStemNumberedMeaning("size1", "sizes");
    SameStemNumberedMeaning("sizes", "size1");
  }

  // ------------------------------------------------------------------------------------------
  // Vetting
  // ------------------------------------------------------------------------------------------

  /** Some morpheme of only one argument is at home where it is, by more than `bound`. */
  ghost predicate AtHome(t: Table, v: PairView, bound: real) {
    (exists m :: m in v.a1 - v.a2 && ConfidenceExceeds(t, v.func, m, v.i, v.j, bound))
    || (exists m :: m in v.a2 - v.a1 && ConfidenceExceeds(t, v.func, m, v.j, v.i, bound))
  }

  /** The folds suppress a pair exactly when one of its distinguishing morphemes has a defined
      confidence above the threshold at its own position. */
  lemma SuppressedIff(ck: Checker, v: PairView)
    ensures Suppressed(ck, v) <==>
            ck.stats.Some? && AtHome(ck.stats.value, v, ck.opts.coverSwappedStatsVettingThreshold)
  {
    if ck.stats.Some? {
      var t, bound := ck.stats.value, ck.opts.coverSwappedStatsVettingThreshold;
      var c1 := Confidences(t, v.func, v.a1 - v.a2, v.i, v.j);
      var c2 := Confidences(t, v.func, v.a2 - v.a1, v.j, v.i);
      if m :| m in v.a1 - v.a2 && ConfidenceExceeds(t, v.func, m, v.i, v.j, bound) {
        assert Confidence(t, v.func, m, v.i, v.j).value in c1 + c2;
      }
      if m :| m in v.a2 - v.a1 && ConfidenceExceeds(t, v.func, m, v.j, v.i, bound) {
        assert Confidence(t, v.func, m, v.j, v.i).value in c1 + c2;
      }
      if Suppressed(ck, v) {
        var score := Max(c1 + c2);
        if score in c1 {
          var m :| m in v.a1 - v.a2 && Confidence(t, v.func, m, v.i, v.j) == Some(score);
          assert ConfidenceExceeds(t, v.func, m, v.i, v.j, bound);
        } else {
          var m :| m in v.a2 - v.a1 && Confidence(t, v.func, m, v.j, v.i) == Some(score);
          assert ConfidenceExceeds(t, v.func, m, v.j, v.i, bound);
        }
      }
    }
  }

  /** `c` is the confidence that some morpheme of only one argument is where it belongs. */
  ghost predicate HasConfidence(t: Table, v: PairView, c: real) {
    (exists m :: m in v.a1 - v.a2 && Confidence(t, v.func, m, v.i, v.j) == Some(c))
    || (exists m :: m in v.a2 - v.a1 && Confidence(t, v.func, m, v.j, v.i) == Some(c))
  }

  /** The score kept on the card: absent iff no confidence is defined, else the greatest one. */
  lemma VettedScoreMeaning(t: Table, v: PairView)
    ensures VettedScore(Some(t), v).None? <==> forall c :: !HasConfidence(t, v, c)
    ensures VettedScore(Some(t), v).Some? ==>
              HasConfidence(t, v, VettedScore(Some(t), v).value)
              && forall c :: HasConfidence(t, v, c) ==> c <= VettedScore(Some(t), v).value
  {
    var cs := Confidences(t, v.func, v.a1 - v.a2, v.i, v.j) + Confidences(t, v.func, v.a2 - v.a1, v.j, v.i);
    assert forall c :: c in cs <==> HasConfidence(t, v, c);
    if cs != {} {
      assert Max(cs) in cs;
    }
  }

  // ------------------------------------------------------------------------------------------
  // Statistics-based check
  // ------------------------------------------------------------------------------------------

  /**
   A statistics report is a swap of single morphemes: the arguments are `C + {m1}` and `C + {m2}`
   for the same `C`, the report names m1 and m2, and each is fit for the other's position.
   */
  lemma StatsReportMeaning(t: Table, opts: CheckerConfiguration, v: PairView) returns (m1: string, m2: string)
    requires StatsVerdict(t, opts, v).Report?
    ensures StatsSwap(t, opts, v, m1, m2)
    ensures var r := StatsVerdict(t, opts, v).result;
            r.arg1 == v.i + 1 && r.arg2 == v.j + 1
            && r.morphemes1 == v.a1 - v.a2 == {m1} && r.morphemes2 == v.a2 - v.a1 == {m2}
            && r.score.UsageStatisticsBased?
            && r.score.fit1 == Fitness(t, v.func, v.j, m1) && r.score.fit2 == Fitness(t, v.func, v.i, m2)
            && Some(r.score.psi1) == Confidence(t, v.func, m1, v.j, v.i)
            && Some(r.score.psi2) == Confidence(t, v.func, m2, v.i, v.j)
    ensures var common := v.a1 * v.a2;
            m1 !in common && m2 !in common && m1 != m2
            && v.a1 == common + {m1} && v.a2 == common + {m2}
  {
    m1, m2 :| StatsSwap(t, opts, v, m1, m2) && StatsVerdict(t, opts, v) == Report(StatsReport(t, v, m1, m2));
    assert m1 in {m1} && m2 in {m2};
    assert v.a1 == v.a1 * v.a2 + (v.a1 - v.a2);
    assert v.a2 == v.a1 * v.a2 + (v.a2 - v.a1);
  }

  // ------------------------------------------------------------------------------------------
  // Verdicts
  // ------------------------------------------------------------------------------------------

  /** A report comes from one of the two checks and names the two positions. */
  lemma ReportOrigin(ck: Checker, v: PairView, mode: Check)
    requires VerdictOf(ck, v, mode).Report?
    ensures v.a1 != {} && v.a2 != {}
    ensures VerdictOf(ck, v, mode).result.arg1 == v.i + 1 && VerdictOf(ck, v, mode).result.arg2 == v.j + 1
    ensures || (mode != StatsBased && BothNamed(v) && VerdictOf(ck, v, mode) == CoverVerdict(ck, v))
            || (mode != CoverBased && ck.stats.Some?
                && VerdictOf(ck, v, mode) == StatsVerdict(ck.stats.value, ck.opts, v))
  {
  }

  /** The documented range 0 to 100 of a score is used at its ends only: a cover report always scores
      100, a statistics report above the fitness threshold and at most 1. */
  lemma ReportScores(ck: Checker, v: PairView, mode: Check)
    requires ck.opts.swappedMorphemeMatchMin > 0.0 && (ck.stats.Some? ==> Normalised(ck.stats.value))
    requires VerdictOf(ck, v, mode).Report?
    ensures var card := VerdictOf(ck, v, mode).result.score;
            if card.ParameterNameBased? then ScoreOf(card) == 100.0
            else
              ck.opts.statsSwappedFitnessThreshold < ScoreOf(card) <= 1.0
              && card.fit1 <= ScoreOf(card) && card.fit2 <= ScoreOf(card) && ScoreOf(card) in {card.fit1, card.fit2}
  {
    ReportOrigin(ck, v, mode);
    if VerdictOf(ck, v, mode) == CoverVerdict(ck, v) {
      CoverReportIff(ck, v);
    } else {
      var m1, m2 := StatsReportMeaning(ck.stats.value, ck.opts, v);
      FitnessInUnitRange(ck.stats.value, v.func, v.j, m1);
      FitnessInUnitRange(ck.stats.value, v.func, v.i, m2);
    }
  }

  /** In mode All the cover result is chosen when both checks report, and nothing is added or lost. */
  lemma AllIsCoverElseStats(ck: Checker, v: PairView)
    ensures VerdictOf(ck, v, StatsBased) != Fault
    ensures VerdictOf(ck, v, All) ==
            if VerdictOf(ck, v, CoverBased) != Silent then VerdictOf(ck, v, CoverBased)
            else VerdictOf(ck, v, StatsBased)
  {
  }

  /** A pair of a call site faults exactly when the cover check gets as far as the suffixes of the
      argument names and the last name of the first argument is empty. */
  lemma FaultIff(ck: Checker, site: CallSite, i: nat, j: nat, mode: Check)
    ensures PairVerdict(ck, site, i, j, mode) == Fault <==>
            var v := View(site, i, j);
            mode != StatsBased && v.a1 != {} && v.a2 != {} && BothNamed(v) && v.p1 != {} && v.p2 != {}
            && CoverGuards(ck.opts, v)
            && !Filtered(v.param1, v.param2)
            && GetLastArgName(site, i) == Some("")
  {
  }
}
