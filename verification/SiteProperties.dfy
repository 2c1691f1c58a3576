/** What a run of `CheckSite` yields, for every call site, configuration and mode. */
module SiteProperties {
  import opened Wrappers
  import opened OrderedSets
  import opened IdentifierSplitting
  import opened PairEnumeration
  import opened UsageStatistics
  import opened CallSites
  import opened PairChecks
  import opened PairProperties
  import opened SwappedArgChecker

  // ------------------------------------------------------------------------------------------
  // Collecting the verdicts of all pairs
  // ------------------------------------------------------------------------------------------

  ghost predicate InOrder(rs: seq<SwapResult>) {
    forall a, b :: 0 <= a < b < |rs| ==>
      rs[a].arg1 < rs[b].arg1 || (rs[a].arg1 == rs[b].arg1 && rs[a].arg2 < rs[b].arg2)
  }

  /** Reports carry the one-based positions of their pair. */
  ghost predicate NamesItsPair(verdict: Pair -> Verdict) {
    forall p :: verdict(p).Report? ==> verdict(p).result.arg1 == p.0 + 1 && verdict(p).result.arg2 == p.1 + 1
  }

  /** The zero-based positions of a report. */
  ghost function PairOf(r: SwapResult): Pair
    requires r.arg1 > 0 && r.arg2 > 0
  {
    (r.arg1 - 1, r.arg2 - 1)
  }

  lemma {:induction false} CollectFaults(verdict: Pair -> Verdict, pairs: seq<Pair>)
    ensures Collect(verdict, pairs) == Faulted <==> exists p :: p in pairs && verdict(p) == Fault
  {
    if pairs != [] {
      var init, last := pairs[..|pairs| - 1], pairs[|pairs| - 1];
      assert pairs == init + [last];
      CollectFaults(verdict, init);
    }
  }

  /** The results are the reports of the pairs, no more, no fewer. */
  lemma {:induction false} CollectReports(verdict: Pair -> Verdict, pairs: seq<Pair>, r: SwapResult)
    requires Collect(verdict, pairs).Completed?
    ensures r in Collect(verdict, pairs).results <==> exists p :: p in pairs && verdict(p) == Report(r)
  {
    if pairs != [] {
      var init, last := pairs[..|pairs| - 1], pairs[|pairs| - 1];
      assert pairs == init + [last];
      CollectReports(verdict, init, r);
    }
  }

  lemma {:induction false} CollectInOrder(verdict: Pair -> Verdict, pairs: seq<Pair>)
    requires Increasing(pairs) && NamesItsPair(verdict) && Collect(verdict, pairs).Completed?
    ensures InOrder(Collect(verdict, pairs).results)
  {
    if pairs != [] {
      var init, last := pairs[..|pairs| - 1], pairs[|pairs| - 1];
      CollectInOrder(verdict, init);
      if verdict(last).Report? {
        var rs := Collect(verdict, init).results;
        forall a | 0 <= a < |rs|
          ensures rs[a].arg1 < last.0 + 1 || (rs[a].arg1 == last.0 + 1 && rs[a].arg2 < last.1 + 1)
        {
          CollectReports(verdict, init, rs[a]);
          var p :| p in init && verdict(p) == Report(rs[a]);
          var k :| 0 <= k < |init| && init[k] == p;
          assert PairLess(pairs[k], last);
        }
      }
    }
  }

  lemma {:induction false} CollectDependsOnVerdicts(f: Pair -> Verdict, g: Pair -> Verdict, pairs: seq<Pair>)
    requires forall p :: p in pairs ==> f(p) == g(p)
    ensures Collect(f, pairs) == Collect(g, pairs)
  {
    if pairs != [] {
      CollectDependsOnVerdicts(f, g, pairs[..|pairs| - 1]);
    }
  }

  lemma CollectAllSound(verdict: Pair -> Verdict, n: nat, r: SwapResult)
    requires NamesItsPair(verdict) && CollectAll(verdict, n).Completed? && r in CollectAll(verdict, n).results
    ensures 1 <= r.arg1 < r.arg2 <= n && verdict(PairOf(r)) == Report(r)
  {
    AllPairsMeaning(n);
    hide AllPairs, Collect;
    CollectReports(verdict, AllPairs(n), r);
    var p :| p in AllPairs(n) && verdict(p) == Report(r);
    assert PairOf(r) == p;
  }

  lemma CollectAllComplete(verdict: Pair -> Verdict, n: nat, p: Pair)
    requires CollectAll(verdict, n).Completed? && p.0 < p.1 < n && verdict(p).Report?
    ensures verdict(p).result in CollectAll(verdict, n).results
  {
    AllPairsMeaning(n);
    CollectReports(verdict, AllPairs(n), verdict(p).result);
  }

  /** A completed collection holds exactly the reports of the pairs i < j < n, in order. */
  lemma CollectAllMeaning(verdict: Pair -> Verdict, n: nat)
    requires NamesItsPair(verdict) && CollectAll(verdict, n).Completed?
    ensures var rs := CollectAll(verdict, n).results;
            InOrder(rs)
            && (forall r :: r in rs ==> 1 <= r.arg1 < r.arg2 <= n && verdict(PairOf(r)) == Report(r))
            && (forall p: Pair :: p.0 < p.1 < n && verdict(p).Report? ==> verdict(p).result in rs)
  {
    var rs := CollectAll(verdict, n).results;
    if n >= 2 {
      AllPairsMeaning(n);
      CollectInOrder(verdict, AllPairs(n));
    }
    forall r | r in rs
      ensures 1 <= r.arg1 < r.arg2 <= n && verdict(PairOf(r)) == Report(r)
    {
      CollectAllSound(verdict, n, r);
    }
    forall p: Pair | p.0 < p.1 < n && verdict(p).Report?
      ensures verdict(p).result in rs
    {
      CollectAllComplete(verdict, n, p);
    }
  }

  lemma CollectAllFaultedIff(verdict: Pair -> Verdict, n: nat)
    ensures CollectAll(verdict, n) == Faulted <==>
            n > NOT_FOUND || exists p: Pair :: p.0 < p.1 < n && verdict(p) == Fault
  {
    if n >= 2 {
      AllPairsMeaning(n);
      CollectFaults(verdict, AllPairs(n));
    }
  }

  // ------------------------------------------------------------------------------------------
  // The results of a call site
  // ------------------------------------------------------------------------------------------

  lemma VerdictsNameTheirPair(ck: Checker, site: CallSite, mode: Check)
    ensures NamesItsPair(Verdicts(ck, site, mode))
  {
    forall p | Verdicts(ck, site, mode)(p).Report?
      ensures Verdicts(ck, site, mode)(p).result.arg1 == p.0 + 1 && Verdicts(ck, site, mode)(p).result.arg2 == p.1 + 1
    {
      ReportOrigin(ck, View(site, p.0, p.1), mode);
    }
  }

  /**
   The results of a completed run are exactly the reports of the pairs i < j, in strictly
   increasing order of their one-based positions.
   */
  lemma OutcomeMeaning(ck: Checker, site: CallSite, mode: Check)
    requires SiteOutcome(ck, site, mode).Completed?
    ensures var rs := SiteOutcome(ck, site, mode).results;
            var n := |site.positionalArgNames|;
            var verdict := Verdicts(ck, site, mode);
            InOrder(rs)
            && (forall r :: r in rs ==> 1 <= r.arg1 < r.arg2 <= n && verdict(PairOf(r)) == Report(r))
            && (forall p: Pair :: p.0 < p.1 < n && verdict(p).Report? ==> verdict(p).result in rs)
  {
    VerdictsNameTheirPair(ck, site, mode);
    CollectAllMeaning(Verdicts(ck, site, mode), |site.positionalArgNames|);
  }

  // ------------------------------------------------------------------------------------------
  // Definedness
  // ------------------------------------------------------------------------------------------

  /** A run faults exactly when there are too many arguments for the sentinel of the pair
      enumerator, or some pair faults. */
  lemma FaultedIff(ck: Checker, site: CallSite, mode: Check)
    ensures SiteOutcome(ck, site, mode) == Faulted <==>
            |site.positionalArgNames| > NOT_FOUND
            || exists p: Pair :: p.0 < p.1 < |site.positionalArgNames| && Verdicts(ck, site, mode)(p) == Fault
  {
    CollectAllFaultedIff(Verdicts(ck, site, mode), |site.positionalArgNames|);
  }

  /** No argument that has morphemes ends in an empty name. */
  predicate SafeNames(args: seq<seq<string>>) {
    forall k :: 0 <= k < |args| && args[k] != [] && args[k][|args[k]| - 1] == "" ==> MorphemesOfNames(args[k]) == {}
  }

  lemma SafePairIsDefined(ck: Checker, site: CallSite, p: Pair, mode: Check)
    requires SafeNames(site.positionalArgNames)
    ensures Verdicts(ck, site, mode)(p) != Fault
  {
    FaultIff(ck, site, p.0, p.1, mode);
    hide VerdictOf, CoverGuards, Filtered, MorphemesOfNames, ParamMorphemes;
  }

  /** No run violates an assertion or reads what is not there. */
  lemma SafeNamesRunsAreDefined(ck: Checker, site: CallSite, mode: Check)
    requires SafeNames(site.positionalArgNames) && |site.positionalArgNames| <= NOT_FOUND
    ensures SiteOutcome(ck, site, mode).Completed?
  {
    FaultedIff(ck, site, mode);
    hide SafeNames, Verdicts, SiteOutcome;
    forall p: Pair | p.0 < p.1 < |site.positionalArgNames|
      ensures Verdicts(ck, site, mode)(p) != Fault
    {
      SafePairIsDefined(ck, site, p, mode);
    }
  }

  /** Arguments with at most one name, as the Clang plugin and the Python binding pass them, are safe. */
  lemma SingleNamesAreSafe(args: seq<seq<string>>)
    requires forall k :: 0 <= k < |args| ==> |args[k]| <= 1
    ensures SafeNames(args)
  {
  }

  lemma MorphemesOfPlainName(name: string)
    requires Plain(name)
    ensures Morphemes(name) == {name} && MorphemesOfNames([name]) == {name} == MorphemesOfNames([name, ""])
  {
    MorphemesAreWellFormed("");
    PlainIsOneWord(name);
    WordsAreMorphemes(name);
    assert name in [name] && name in [name, ""] && [name][0] == name;
  }

  lemma CrossedSinglesPassGuards(opts: CheckerConfiguration, v: PairView, m1: string, m2: string)
    requires opts == DEFAULT_CONFIGURATION && m1 != m2
    requires v.p1 == {m1} == v.a2 && v.p2 == {m2} == v.a1
    ensures CoverGuards(opts, v)
  {
  }

  /** A call site outside that condition on which the run does fault. */
  lemma UnsafeNamesCanFault() returns (site: CallSite)
    ensures SiteOutcome(Checker(DEFAULT_CONFIGURATION, None), site, CoverBased) == Faulted
  {
    site := CallSite(CallDeclDescriptor("f", Some(["cats", "dogs"])), [["dogs", ""], ["cats"]]);
    var ck := Checker(DEFAULT_CONFIGURATION, None);
    MorphemesOfPlainName("cats");
    MorphemesOfPlainName("dogs");
    assert "cats"[0] != "dogs"[0];
    CrossedSinglesPassGuards(ck.opts, View(site, 0, 1), "cats", "dogs");
    FaultIff(ck, site, 0, 1, CoverBased);
    assert Verdicts(ck, site, CoverBased)((0, 1)) == Fault;
    hide Verdicts, SiteOutcome;
    FaultedIff(ck, site, CoverBased);
  }

  // ------------------------------------------------------------------------------------------
  // Modes
  // ------------------------------------------------------------------------------------------

  ghost predicate ReportsPair(rs: seq<SwapResult>, p: Pair) {
    exists r :: r in rs && r.arg1 == p.0 + 1 && r.arg2 == p.1 + 1
  }

  lemma CollectAllReportsPairIff(verdict: Pair -> Verdict, n: nat, p: Pair)
    requires NamesItsPair(verdict) && CollectAll(verdict, n).Completed? && p.0 < p.1 < n
    ensures ReportsPair(CollectAll(verdict, n).results, p) <==> verdict(p).Report?
    ensures verdict(p).Report? ==> verdict(p).result in CollectAll(verdict, n).results
  {
    if verdict(p).Report? {
      CollectAllComplete(verdict, n, p);
    }
    if r :| r in CollectAll(verdict, n).results && r.arg1 == p.0 + 1 && r.arg2 == p.1 + 1 {
      CollectAllSound(verdict, n, r);
      assert PairOf(r) == p;
    }
  }

  /** A pair is among the results exactly when its verdict is a report, and then with that report. */
  lemma ReportsPairIff(ck: Checker, site: CallSite, mode: Check, p: Pair)
    requires SiteOutcome(ck, site, mode).Completed? && p.0 < p.1 < |site.positionalArgNames|
    ensures ReportsPair(SiteOutcome(ck, site, mode).results, p) <==> Verdicts(ck, site, mode)(p).Report?
    ensures Verdicts(ck, site, mode)(p).Report? ==> Verdicts(ck, site, mode)(p).result in SiteOutcome(ck, site, mode).results
  {
    VerdictsNameTheirPair(ck, site, mode);
    CollectAllReportsPairIff(Verdicts(ck, site, mode), |site.positionalArgNames|, p);
  }

  lemma ModesCompleteTogether(ck: Checker, site: CallSite)
    ensures SiteOutcome(ck, site, All).Completed? <==> SiteOutcome(ck, site, CoverBased).Completed?
    ensures |site.positionalArgNames| <= NOT_FOUND ==> SiteOutcome(ck, site, StatsBased).Completed?
  {
    FaultedIff(ck, site, All);
    FaultedIff(ck, site, CoverBased);
    FaultedIff(ck, site, StatsBased);
    forall p: Pair
      ensures Verdicts(ck, site, All)(p) == Fault <==> Verdicts(ck, site, CoverBased)(p) == Fault
      ensures Verdicts(ck, site, StatsBased)(p) != Fault
    {
      AllIsCoverElseStats(ck, View(site, p.0, p.1));
    }
  }

  /**
   The pairs reported in mode All are the union of those of the two single modes, and where both
   report, mode All gives the result of the cover check.
   */
  lemma ModeAllIsUnion(ck: Checker, site: CallSite, p: Pair)
    requires SiteOutcome(ck, site, All).Completed? && p.0 < p.1 < |site.positionalArgNames|
    ensures SiteOutcome(ck, site, CoverBased).Completed? && SiteOutcome(ck, site, StatsBased).Completed?
    ensures var all, cover, stats := SiteOutcome(ck, site, All).results,
                                     SiteOutcome(ck, site, CoverBased).results,
                                     SiteOutcome(ck, site, StatsBased).results;
            && (ReportsPair(all, p) <==> ReportsPair(cover, p) || ReportsPair(stats, p))
            && (ReportsPair(cover, p) ==> Verdicts(ck, site, CoverBased)(p).Report?
                                          && Verdicts(ck, site, CoverBased)(p).result in all)
            && (ReportsPair(stats, p) && !ReportsPair(cover, p) ==> Verdicts(ck, site, StatsBased)(p).Report?
                                                                    && Verdicts(ck, site, StatsBased)(p).result in all)
  {
    ModesCompleteTogether(ck, site);
    FaultedIff(ck, site, All);
    AllIsCoverElseStats(ck, View(site, p.0, p.1));
    assert Verdicts(ck, site, All)(p) != Fault;
    ReportsPairIff(ck, site, All, p);
    ReportsPairIff(ck, site, CoverBased, p);
    ReportsPairIff(ck, site, StatsBased, p);
  }

  // ------------------------------------------------------------------------------------------
  // Spelling
  // ------------------------------------------------------------------------------------------

  /** Two spellings of a name: both empty or both not, with the same morphemes and no final digit. */
  ghost predicate Respelled(one: string, two: string) {
    (one == "" <==> two == "")
    && Morphemes(one) == Morphemes(two)
    && !EndsInDigit(one) && !EndsInDigit(two)
  }

  ghost predicate SameParam(one: Option<string>, two: Option<string>) {
    one.Some? == two.Some? && (one.Some? ==> Respelled(one.value, two.value))
  }

  /** The same for the last of several names, whose own morphemes do not matter. */
  ghost predicate SameLast(one: Option<string>, two: Option<string>) {
    one.Some? == two.Some?
    && (one.Some? ==>
          (one.value == "" <==> two.value == "") && !EndsInDigit(one.value) && !EndsInDigit(two.value))
  }

  /** Two call sites that differ only in how their names are spelled. */
  ghost predicate SameSpelling(one: CallSite, two: CallSite) {
    one.callDecl.fullyQualifiedName == two.callDecl.fullyQualifiedName
    && |one.positionalArgNames| == |two.positionalArgNames|
    && (forall k: nat :: SameParam(GetParamName(one, k), GetParamName(two, k)))
    && (forall k: nat :: ArgMorphemes(one, k) == ArgMorphemes(two, k))
    && (forall k: nat :: ArgMorphemes(one, k) != {} ==> SameLast(GetLastArgName(one, k), GetLastArgName(two, k)))
  }

  /** The same positions and morphemes, and no name that the suffix filter objects to. */
  ghost predicate SameView(v: PairView, w: PairView) {
    v.func == w.func && v.i == w.i && v.j == w.j
    && v.p1 == w.p1 && v.p2 == w.p2 && v.a1 == w.a1 && v.a2 == w.a2
    && SameParam(v.param1, w.param1) && SameParam(v.param2, w.param2)
    && (v.a1 != {} ==> SameLast(v.last1, w.last1))
    && (v.a2 != {} ==> SameLast(v.last2, w.last2))
  }

  lemma CoverVerdictSameSpelling(ck: Checker, v: PairView, w: PairView)
    requires SameView(v, w)
    ensures CoverVerdict(ck, v) == CoverVerdict(ck, w)
  {
  }

  lemma StatsVerdictSameSpelling(t: Table, opts: CheckerConfiguration, v: PairView, w: PairView)
    requires v.func == w.func && v.i == w.i && v.j == w.j && v.a1 == w.a1 && v.a2 == w.a2
    ensures StatsVerdict(t, opts, v) == StatsVerdict(t, opts, w)
  {
    assert forall m1, m2 :: StatsSwap(t, opts, v, m1, m2) == StatsSwap(t, opts, w, m1, m2);
    if m1, m2 :| StatsSwap(t, opts, v, m1, m2) {
      StatsSwapIsUnique(t, opts, v, m1, m2);
      StatsSwapIsUnique(t, opts, w, m1, m2);
    }
  }

  lemma VerdictSameSpelling(ck: Checker, v: PairView, w: PairView, mode: Check)
    requires SameView(v, w)
    ensures VerdictOf(ck, v, mode) == VerdictOf(ck, w, mode)
  {
    hide CoverVerdict, StatsVerdict;
    CoverVerdictSameSpelling(ck, v, w);
    if ck.stats.Some? {
      StatsVerdictSameSpelling(ck.stats.value, ck.opts, v, w);
    }
  }

  /**
   Where no name ends in a digit, the outcome - faults, results, morphemes and scores - depends on
   names only through their morphemes.
   */
  lemma SpellingIndependence(ck: Checker, one: CallSite, two: CallSite, mode: Check)
    requires SameSpelling(one, two)
    ensures SiteOutcome(ck, one, mode) == SiteOutcome(ck, two, mode)
  {
    var n := |one.positionalArgNames|;
    forall p: Pair
      ensures Verdicts(ck, one, mode)(p) == Verdicts(ck, two, mode)(p)
    {
      VerdictSameSpelling(ck, View(one, p.0, p.1), View(two, p.0, p.1), mode);
    }
    CollectDependsOnVerdicts(Verdicts(ck, one, mode), Verdicts(ck, two, mode), AllPairs(n));
  }

  ghost predicate RespelledList(ones: seq<string>, twos: seq<string>) {
    |ones| == |twos| && forall k :: 0 <= k < |ones| ==> Respelled(ones[k], twos[k])
  }

  /** The same call site with every name replaced by another spelling. */
  ghost predicate RespelledSite(one: CallSite, two: CallSite) {
    one.callDecl.fullyQualifiedName == two.callDecl.fullyQualifiedName
    && one.callDecl.paramNames.Some? == two.callDecl.paramNames.Some?
    && (one.callDecl.paramNames.Some? ==> RespelledList(one.callDecl.paramNames.value, two.callDecl.paramNames.value))
    && |one.positionalArgNames| == |two.positionalArgNames|
    && forall k :: 0 <= k < |one.positionalArgNames| ==> RespelledList(one.positionalArgNames[k], two.positionalArgNames[k])
  }

  lemma RespelledListMorphemes(ones: seq<string>, twos: seq<string>)
    requires RespelledList(ones, twos)
    ensures MorphemesOfNames(ones) == MorphemesOfNames(twos)
  {
    forall m
      ensures m in MorphemesOfNames(ones) <==> m in MorphemesOfNames(twos)
    {
      if name :| name in ones && m in Morphemes(name) {
        var k :| 0 <= k < |ones| && ones[k] == name;
        assert m in Morphemes(twos[k]);
      }
      if name :| name in twos && m in Morphemes(name) {
        var k :| 0 <= k < |twos| && twos[k] == name;
        assert m in Morphemes(ones[k]);
      }
    }
  }

  lemma RespelledIsSameSpelling(one: CallSite, two: CallSite)
    requires RespelledSite(one, two)
    ensures SameSpelling(one, two)
  {
    forall k: nat
      ensures ArgMorphemes(one, k) == ArgMorphemes(two, k) && SameLast(GetLastArgName(one, k), GetLastArgName(two, k))
    {
      if k < |one.positionalArgNames| {
        RespelledListMorphemes(one.positionalArgNames[k], two.positionalArgNames[k]);
      }
    }
    MorphemesAreWellFormed("");
  }

  /** Replacing names, one by one, by nonempty names with the same morphemes changes nothing. */
  lemma RespellingChangesNothing(ck: Checker, one: CallSite, two: CallSite, mode: Check)
    requires RespelledSite(one, two)
    ensures SiteOutcome(ck, one, mode) == SiteOutcome(ck, two, mode)
  {
    RespelledIsSameSpelling(one, two);
    hide SameSpelling, SiteOutcome;
    SpellingIndependence(ck, one, two, mode);
  }

  // ------------------------------------------------------------------------------------------
  // snake_case and camelCase
  // ------------------------------------------------------------------------------------------

  ghost predicate SpellingsOf(words: seq<string>, gaps: seq<nat>, one: string, two: string) {
    words != [] && OverAlphabet(words) && Elements(Merged(words)) == Elements(words)
    && |gaps| == |words| + 1 && (forall k :: 0 < k < |words| ==> gaps[k] > 0)
    && one == Snake(words, gaps) && two == Camel(words)
  }

  /** A snake_case and a camelCase spelling of the same lower-case words, from which camelCase loses
      no word. */
  ghost predicate SnakeAndCamel(one: string, two: string) {
    exists words, gaps :: SpellingsOf(words, gaps, one, two)
  }

  /** Any other name may stay as it is, empty ones and those with inner digits included. */
  ghost predicate SameOrCamel(one: string, two: string) {
    (one == two && !EndsInDigit(one)) || SnakeAndCamel(one, two)
  }

  lemma {:induction false} SnakeHasNoDigits(words: seq<string>, gaps: seq<nat>)
    requires AllLowerLetters(words) && |gaps| == |words| + 1
    ensures forall k :: 0 <= k < |Snake(words, gaps)| ==> !IsDigit(Snake(words, gaps)[k])
  {
    if words != [] {
      SnakeHasNoDigits(words[1..], gaps[1..]);
      assert LowerLetters(words[0]);
    }
  }

  lemma {:induction false} CamelHasNoDigits(words: seq<string>)
    requires AllLowerLetters(words)
    ensures forall k :: 0 <= k < |Camel(words)| ==> !IsDigit(Camel(words)[k])
  {
    if words != [] {
      CamelHasNoDigits(words[..|words| - 1]);
      assert LowerLetters(words[|words| - 1]);
    }
  }

  lemma SnakeAndCamelAreRespelled(one: string, two: string)
    requires SnakeAndCamel(one, two)
    ensures Respelled(one, two)
  {
    var words, gaps :| SpellingsOf(words, gaps, one, two);
    OverAlphabetIsLower(words);
    SnakeHasNoDigits(words, gaps);
    CamelHasNoDigits(words);
    hide Snake, Camel, Morphemes;
    assert LowerLetters(words[0]) && Plain(words[0]);
    assert forall k :: 0 <= k < |words| ==> LowerLetters(words[k]) && Plain(words[k]);
    SnakeRoundTrip(words, gaps);
    SnakeAndCamelAgreeIff(words, gaps);
    assert words[0] in Morphemes(one);
    MorphemesAreWellFormed("");
  }

  ghost predicate SameOrCamelList(ones: seq<string>, twos: seq<string>) {
    |ones| == |twos| && forall k :: 0 <= k < |ones| ==> SameOrCamel(ones[k], twos[k])
  }

  lemma SameOrCamelListIsRespelled(ones: seq<string>, twos: seq<string>)
    requires SameOrCamelList(ones, twos)
    ensures RespelledList(ones, twos)
  {
    hide SnakeAndCamel;
    forall k | 0 <= k < |ones|
      ensures Respelled(ones[k], twos[k])
    {
      if ones[k] != twos[k] || EndsInDigit(ones[k]) {
        SnakeAndCamelAreRespelled(ones[k], twos[k]);
      }
    }
  }

  /** Writing any of the names of a call site in camelCase instead of snake_case changes nothing. */
  lemma CamelForSnakeChangesNothing(ck: Checker, one: CallSite, two: CallSite, mode: Check)
    requires one.callDecl.fullyQualifiedName == two.callDecl.fullyQualifiedName
    requires one.callDecl.paramNames.Some? == two.callDecl.paramNames.Some?
    requires one.callDecl.paramNames.Some? ==>
               SameOrCamelList(one.callDecl.paramNames.value, two.callDecl.paramNames.value)
    requires |one.positionalArgNames| == |two.positionalArgNames|
    requires forall k :: 0 <= k < |one.positionalArgNames| ==>
               SameOrCamelList(one.positionalArgNames[k], two.positionalArgNames[k])
    ensures SiteOutcome(ck, one, mode) == SiteOutcome(ck, two, mode)
  {
    hide SameOrCamelList, RespelledList, SiteOutcome;
    if one.callDecl.paramNames.Some? {
      SameOrCamelListIsRespelled(one.callDecl.paramNames.value, two.callDecl.paramNames.value);
    }
    forall k | 0 <= k < |one.positionalArgNames|
      ensures RespelledList(one.positionalArgNames[k], two.positionalArgNames[k])
    {
      SameOrCamelListIsRespelled(one.positionalArgNames[k], two.positionalArgNames[k]);
    }
    RespellingChangesNothing(ck, one, two, mode);
  }
}
