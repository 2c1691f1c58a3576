/**
 The checks as the program runs them (src/SwappedArgChecker.cpp): loops over ordered sets, folds
 with early exits, and the walk over all pairs of a call site. Each method is proved equal to the
 set-based verdict of module PairChecks or to `SiteOutcome` below.
 */
module SwappedArgChecker {
  import opened Wrappers
  import opened OrderedSets
  import opened IdentifierSplitting
  import opened PairEnumeration
  import opened UsageStatistics
  import opened CallSites
  import opened PairChecks

  /** `MorphemeSet`: the morphemes of one name list and its zero-based position. */
  datatype MorphemeSet = MorphemeSet(morphemes: OrderedSet, position: nat)

  // ------------------------------------------------------------------------------------------
  // Cover-based check
  // ------------------------------------------------------------------------------------------

  /** `BiasComp::operator()`. */
  predicate BiasComp(bias: Bias, lhs: real, rhs: real) {
    if bias == Pessimistic then lhs < rhs else lhs > rhs
  }

  /** `anyAreSynonyms`: currently equality. */
  function AnyAreSynonyms(morpheme: string, potentialSynonyms: seq<string>): real {
    if morpheme in potentialSynonyms then 1.0 else 0.0
  }

  lemma MatchScoreAdd(arg: set<string>, param: set<string>, m: string, bias: Bias)
    ensures MatchScore(arg, param + {m}, bias) ==
            var val := if m in arg then 1.0 else 0.0;
            if param == {} || BiasComp(bias, val, MatchScore(arg, param, bias)) then val
            else MatchScore(arg, param, bias)
  {
  }

  /** `morphemesMatch`: the biased extreme over the parameter morphemes. */
  method MorphemesMatch(arg: OrderedSet, param: OrderedSet, bias: Bias) returns (r: real)
    requires param != []
    ensures r == MatchScore(Elements(arg), Elements(param), bias)
  {
    var extreme: Option<real> := None;
    for k := 0 to |param|
      invariant k > 0 ==> extreme == Some(MatchScore(Elements(arg), Elements(param[..k]), bias))
      invariant k == 0 ==> extreme == None
    {
      var val := AnyAreSynonyms(param[k], arg);
      assert param[..k + 1] == param[..k] + [param[k]];
      ElementsOfConcat(param[..k], [param[k]]);
      assert Elements([param[k]]) == {param[k]};
      MatchScoreAdd(Elements(arg), Elements(param[..k]), param[k], bias);
      if extreme.None? || BiasComp(bias, val, extreme.value) {
        extreme := Some(val);
      }
    }
    assert param[..|param|] == param;
    r := extreme.value;
  }

  lemma MaxOptionAdd(s: set<real>, c: real)
    requires c >= 0.0 && forall x :: x in s ==> x >= 0.0
    ensures MaxOption(s + {c}) ==
            match MaxOption(s) case None => Some(c) case Some(m) => Some(if m < c then c else m)
  {
  }

  lemma ConfidencesAdd(t: Table, func: string, ms: OrderedSet, k: nat, pos: nat, other: nat, seen: set<real>)
    requires k < |ms|
    ensures seen + Confidences(t, func, Elements(ms[..k + 1]), pos, other) ==
            match Confidence(t, func, ms[k], pos, other)
            case None => seen + Confidences(t, func, Elements(ms[..k]), pos, other)
            case Some(c) => seen + Confidences(t, func, Elements(ms[..k]), pos, other) + {c}
  {
  }

  /** One of the two vetting folds: raises the score to the greatest defined confidence. */
  method Vet(t: Table, func: string, ms: OrderedSet, pos: nat, other: nat,
             score: Option<real>, ghost seen: set<real>)
    returns (statsScore: Option<real>)
    requires score == MaxOption(seen) && forall x :: x in seen ==> x >= 0.0
    ensures statsScore == MaxOption(seen + Confidences(t, func, Elements(ms), pos, other))
    ensures forall x :: x in seen + Confidences(t, func, Elements(ms), pos, other) ==> x >= 0.0
  {
    statsScore := score;
    ghost var all := seen;
    assert seen + Confidences(t, func, Elements(ms[..0]), pos, other) == seen;
    hide MaxOption, Confidences, Confidence, Elements;
    for k := 0 to |ms|
      invariant all == seen + Confidences(t, func, Elements(ms[..k]), pos, other)
      invariant forall x :: x in all ==> x >= 0.0
      invariant statsScore == MaxOption(all)
    {
      ConfidencesAdd(t, func, ms, k, pos, other, seen);
      var val := Confidence(t, func, ms[k], pos, other);
      if val.Some? {
        MaxOptionAdd(all, val.value);
        all := all + {val.value};
        var best := match statsScore case None => 0.0 case Some(s) => s;
        statsScore := Some(if best < val.value then val.value else best);
      }
    }
    assert ms[..|ms|] == ms;
  }

  /** Both folds, each over the morphemes that one argument does not share with the other. */
  method VetBoth(t: Table, ghost v: PairView, func: string, u1: OrderedSet, u2: OrderedSet, i: nat, j: nat)
    returns (statsScore: Option<real>)
    requires func == v.func && i == v.i && j == v.j
    requires Elements(u1) == v.a1 - v.a2 && Elements(u2) == v.a2 - v.a1
    ensures statsScore == VettedScore(Some(t), v)
  {
    ghost var first := Confidences(t, func, Elements(u1), i, j);
    assert {} + first == first;
    statsScore := Vet(t, func, u1, i, j, None, {});
    statsScore := Vet(t, func, u2, j, i, statsScore, first);
  }

  /** The view that the checks take when they are handed these morpheme sets. */
  ghost function ViewOf(site: CallSite, params: (MorphemeSet, MorphemeSet), args: (MorphemeSet, MorphemeSet)): PairView {
    PairView(
      site.callDecl.fullyQualifiedName, args.0.position, args.1.position,
      GetParamName(site, params.0.position), GetParamName(site, params.1.position),
      GetLastArgName(site, args.0.position), GetLastArgName(site, args.1.position),
      Elements(params.0.morphemes), Elements(params.1.morphemes),
      Elements(args.0.morphemes), Elements(args.1.morphemes))
  }

  /** The four guards on match scores, and the score of a pair that passes them. */
  method MatchGuards(opts: CheckerConfiguration, ghost v: PairView, q1: OrderedSet, q2: OrderedSet, u1: OrderedSet, u2: OrderedSet)
    returns (pass: bool, worstPsi: real)
    requires |v.p1| == |v.p2| == |v.a1| == |v.a2|
    requires q1 != [] && q2 != [] && u1 != [] && u2 != []
    requires Elements(q1) == v.p1 - v.p2 && Elements(q2) == v.p2 - v.p1
    requires Elements(u1) == v.a1 - v.a2 && Elements(u2) == v.a2 - v.a1
    ensures pass == CoverGuards(opts, v)
    ensures pass ==> worstPsi == WorstPsi(v)
  {
    pass, worstPsi := false, 0.0;
    assert q1[0] in Elements(q1) && q2[0] in Elements(q2) && u1[0] in Elements(u1) && u2[0] in Elements(u2);
    // No swap where an argument shares a morpheme with its own parameter.
    var mmAiPi := MorphemesMatch(u1, q1, Optimistic);
    if mmAiPi > opts.existingMorphemeMatchMax {
      return;
    }
    var mmAjPj := MorphemesMatch(u2, q2, Optimistic);
    if mmAjPj > opts.existingMorphemeMatchMax {
      return;
    }
    // No swap where an argument misses a morpheme of the other parameter.
    var mmAiPj := MorphemesMatch(u1, q2, Pessimistic);
    if mmAiPj < opts.swappedMorphemeMatchMin {
      return;
    }
    var mmAjPi := MorphemesMatch(u2, q1, Pessimistic);
    if mmAjPi < opts.swappedMorphemeMatchMin {
      return;
    }
    var psi1, psi2 := mmAiPj / (mmAjPj + 0.01), mmAjPi / (mmAiPi + 0.01);
    pass, worstPsi := true, if psi2 < psi1 then psi2 else psi1;
  }

  /** The second half of the check: the numeric suffix filter, the vetting and the report. */
  method FilterAndVet(ck: Checker, ghost v: PairView, params: (MorphemeSet, MorphemeSet),
                      args: (MorphemeSet, MorphemeSet), site: CallSite,
                      u1: OrderedSet, u2: OrderedSet, worstPsi: real)
    returns (verdict: Verdict)
    requires v == ViewOf(site, params, args)
    requires v.p1 != {} && v.p2 != {} && v.a1 != {} && v.a2 != {}
    requires CoverGuards(ck.opts, v) && worstPsi == WorstPsi(v)
    requires Elements(u1) == v.a1 - v.a2 && Elements(u2) == v.a2 - v.a1
    ensures verdict == CoverVerdict(ck, v)
  {
    var param1, param2 := GetParamName(site, params.0.position), GetParamName(site, params.1.position);
    if param1.None? || param2.None? || param1.value == "" {
      return Fault;
    }
    if SuffixCheck(param1.value, param2.value) {
      return Silent;
    }
    var arg1, arg2 := GetLastArgName(site, args.0.position), GetLastArgName(site, args.1.position);
    if arg1.None? || arg2.None? || arg1.value == "" {
      return Fault;
    }
    if SuffixCheck(arg1.value, arg2.value) {
      return Silent;
    }

    var statsScore: Option<real> := None;
    if ck.stats.Some? {
      statsScore := VetBoth(ck.stats.value, v, site.callDecl.fullyQualifiedName,
                            u1, u2, args.0.position, args.1.position);
      if statsScore.Some? && statsScore.value > ck.opts.coverSwappedStatsVettingThreshold {
        return Silent;
      }
    }
    return Report(SwapResult(
        args.0.position + 1, args.1.position + 1,
        Elements(u1), Elements(u2),
        ParameterNameBased(worstPsi, statsScore)));
  }

  /** `checkForCoverBasedSwap`. */
  method CheckForCoverBasedSwap(ck: Checker, params: (MorphemeSet, MorphemeSet),
                                args: (MorphemeSet, MorphemeSet), site: CallSite)
    returns (verdict: Verdict)
    ensures verdict == CoverVerdict(ck, ViewOf(site, params, args))
  {
    ghost var v := ViewOf(site, params, args);
    var param1Morphs, param2Morphs := params.0.morphemes, params.1.morphemes;
    var arg1Morphs, arg2Morphs := args.0.morphemes, args.1.morphemes;
    SizeIsCardinality(param1Morphs);
    SizeIsCardinality(param2Morphs);
    SizeIsCardinality(arg1Morphs);
    SizeIsCardinality(arg2Morphs);
    if param1Morphs == [] || param2Morphs == [] || arg1Morphs == [] || arg2Morphs == [] {
      return Fault;
    }
    if |param1Morphs| != |param2Morphs| || |arg1Morphs| != |arg2Morphs| || |param1Morphs| != |arg1Morphs| {
      return Silent;
    }
    var uniqueMorphsParam1 := SetDifference(param1Morphs, param2Morphs);
    var uniqueMorphsParam2 := SetDifference(param2Morphs, param1Morphs);
    var uniqueMorphsArg1 := SetDifference(arg1Morphs, arg2Morphs);
    var uniqueMorphsArg2 := SetDifference(arg2Morphs, arg1Morphs);
    SizeIsCardinality(uniqueMorphsParam1);
    SizeIsCardinality(uniqueMorphsParam2);
    SizeIsCardinality(uniqueMorphsArg1);
    SizeIsCardinality(uniqueMorphsArg2);
    if uniqueMorphsParam1 == [] || uniqueMorphsParam2 == [] || uniqueMorphsArg1 == [] || uniqueMorphsArg2 == [] {
      return Silent;
    }

    var pass, worstPsi := MatchGuards(ck.opts, v, uniqueMorphsParam1, uniqueMorphsParam2, uniqueMorphsArg1, uniqueMorphsArg2);
    if !pass {
      return Silent;
    }
    verdict := FilterAndVet(ck, v, params, args, site, uniqueMorphsArg1, uniqueMorphsArg2, worstPsi);
  }

  // ------------------------------------------------------------------------------------------
  // Statistics-based check
  // ------------------------------------------------------------------------------------------

  /** `morphemeSetDifference`. */
  method MorphemeSetDifference(one: MorphemeSet, two: MorphemeSet) returns (ret: MorphemeSet)
    ensures ret.position == one.position
    ensures Elements(ret.morphemes) == Elements(one.morphemes) - Elements(two.morphemes)
  {
    var difference := SetDifference(one.morphemes, two.morphemes);
    ret := MorphemeSet(difference, one.position);
  }

  /** Since the two differences are disjoint, equal remainders leave a single morpheme on each side. */
  lemma EqualRemainders(one: OrderedSet, two: OrderedSet, u1: set<string>, u2: set<string>, m1: string, m2: string)
    requires u1 !! u2 && m1 in u1 && m2 in u2
    requires Elements(one) == u1 - {m1} && Elements(two) == u2 - {m2}
    ensures one == two <==> u1 == {m1} && u2 == {m2}
  {
    if one == two {
      assert Elements(one) == {};
      assert u1 == Elements(one) + {m1} && u2 == Elements(two) + {m2};
    }
    if u1 == {m1} && u2 == {m2} {
      SortedIsUnique(one, two);
    }
  }

  lemma NoStatsSwap(t: Table, opts: CheckerConfiguration, v: PairView, u1: OrderedSet, u2: OrderedSet)
    requires Elements(u1) == v.a1 - v.a2 && Elements(u2) == v.a2 - v.a1
    requires forall x, y :: 0 <= x < |u1| && 0 <= y < |u2| ==> !StatsSwap(t, opts, v, u1[x], u2[y])
    ensures StatsVerdict(t, opts, v) == Silent
  {
  }

  /** `checkForStatisticsBasedSwap`. */
  method CheckForStatisticsBasedSwap(t: Table, opts: CheckerConfiguration, params: (MorphemeSet, MorphemeSet),
                                     args: (MorphemeSet, MorphemeSet), callSite: CallSite)
    returns (verdict: Verdict)
    ensures verdict == StatsVerdict(t, opts, ViewOf(callSite, params, args))
  {
    hide StatsVerdict, Confidence, Fitness;
    ghost var v := ViewOf(callSite, params, args);
    var func := callSite.callDecl.fullyQualifiedName;
    var uniq1 := MorphemeSetDifference(args.0, args.1);
    var uniq2 := MorphemeSetDifference(args.1, args.0);
    for k := 0 to |uniq1.morphemes|
      invariant forall x, y :: 0 <= x < k && 0 <= y < |uniq2.morphemes| ==>
        !StatsSwap(t, opts, v, uniq1.morphemes[x], uniq2.morphemes[y])
    {
      var argMorph1 := uniq1.morphemes[k];
      for l := 0 to |uniq2.morphemes|
        invariant forall y :: 0 <= y < l ==> !StatsSwap(t, opts, v, argMorph1, uniq2.morphemes[y])
      {
        var argMorph2 := uniq2.morphemes[l];
        var psi1 := Confidence(t, func, argMorph1, uniq2.position, uniq1.position);
        var psi2 := Confidence(t, func, argMorph2, uniq1.position, uniq2.position);
        if psi1.None? || psi2.None? || psi1.value <= opts.statsSwappedMorphemeThreshold
           || psi2.value <= opts.statsSwappedMorphemeThreshold {
          continue;
        }
        var one := RemoveCopy(uniq1.morphemes, argMorph1);
        var two := RemoveCopy(uniq2.morphemes, argMorph2);
        EqualRemainders(one, two, v.a1 - v.a2, v.a2 - v.a1, argMorph1, argMorph2);
        if one != two {
          continue;
        }
        var fit1 := Fit(t, argMorph1, func, args.1.position);
        var fit2 := Fit(t, argMorph2, func, args.0.position);
        if fit1 > opts.statsSwappedFitnessThreshold && fit2 > opts.statsSwappedFitnessThreshold {
          StatsSwapIsUnique(t, opts, v, argMorph1, argMorph2);
          return Report(SwapResult(
              args.0.position + 1, args.1.position + 1,
              Elements(uniq1.morphemes), Elements(uniq2.morphemes),
              UsageStatisticsBased(fit1, fit2, psi1.value, psi2.value)));
        }
      }
    }
    NoStatsSwap(t, opts, v, uniq1.morphemes, uniq2.morphemes);
    return Silent;
  }

  // ------------------------------------------------------------------------------------------
  // The call site
  // ------------------------------------------------------------------------------------------

  /** Runs the verdicts of a list of pairs in order; the first fault ends the run. */
  ghost function Collect(verdict: Pair -> Verdict, pairs: seq<Pair>): Outcome {
    if pairs == [] then Completed([])
    else
      match Collect(verdict, pairs[..|pairs| - 1])
      case Faulted => Faulted
      case Completed(results) =>
        match verdict(pairs[|pairs| - 1])
        case Fault => Faulted
        case Silent => Completed(results)
        case Report(r) => Completed(results + [r])
  }

  ghost function CollectAll(verdict: Pair -> Verdict, n: nat): Outcome {
    if n < 2 then Completed([])
    else if n > NOT_FOUND then Faulted
    else Collect(verdict, AllPairs(n))
  }

  ghost function Verdicts(ck: Checker, site: CallSite, mode: Check): Pair -> Verdict {
    (p: Pair) => PairVerdict(ck, site, p.0, p.1, mode)
  }

  /** What checking a call site yields. */
  ghost function SiteOutcome(ck: Checker, site: CallSite, mode: Check): Outcome {
    CollectAll(Verdicts(ck, site, mode), |site.positionalArgNames|)
  }

  lemma {:induction false} FaultStays(verdict: Pair -> Verdict, pairs: seq<Pair>, k: nat)
    requires k <= |pairs| && Collect(verdict, pairs[..k]) == Faulted
    ensures Collect(verdict, pairs) == Faulted
  {
    if k < |pairs| {
      assert pairs[..|pairs| - 1][..k] == pairs[..k];
      FaultStays(verdict, pairs[..|pairs| - 1], k);
    } else {
      assert pairs[..k] == pairs;
    }
  }

  lemma NamesByPosition(names: seq<string>)
    ensures forall x :: x in MorphemesOfNames(names) <==> exists k :: 0 <= k < |names| && x in Morphemes(names[k])
  {
    forall x | x in MorphemesOfNames(names)
      ensures exists k :: 0 <= k < |names| && x in Morphemes(names[k])
    {
      var name :| name in names && x in Morphemes(name);
      var k :| 0 <= k < |names| && names[k] == name;
      assert x in Morphemes(names[k]);
    }
  }

  /** `morphemeCollector`: all components of an argument go into one set. */
  method CollectMorphemes(names: seq<string>, position: nat) returns (m: MorphemeSet)
    ensures m.position == position
    ensures Elements(m.morphemes) == MorphemesOfNames(names)
    ensures forall x :: x in m.morphemes <==> exists k :: 0 <= k < |names| && x in Morphemes(names[k])
  {
    var morphemes: OrderedSet := [];
    for k := 0 to |names|
      invariant Elements(morphemes) == MorphemesOfNames(names[..k])
    {
      var morphs := Split(names[k]);
      assert names[..k + 1] == names[..k] + [names[k]];
      MorphemesOfMoreNames(names[..k], [names[k]]);
      MorphemesOfOneName(names[k]);
      ghost var before := Elements(morphemes);
      for l := 0 to |morphs|
        invariant Elements(morphemes) == before + Elements(morphs[..l])
      {
        assert morphs[..l + 1] == morphs[..l] + [morphs[l]];
        ElementsOfConcat(morphs[..l], [morphs[l]]);
        morphemes := Insert(morphemes, morphs[l]);
      }
      assert morphs[..|morphs|] == morphs;
    }
    assert names[..|names|] == names;
    m := MorphemeSet(morphemes, position);
    NamesByPosition(names);
    assert forall x :: x in m.morphemes <==> x in Elements(morphemes);
  }

  /** The body of the loop over the pairs of `CheckSite`. */
  method CheckPair(ck: Checker, site: CallSite, i: nat, j: nat, whichCheck: Check) returns (verdict: Verdict)
    requires i < |site.positionalArgNames| && j < |site.positionalArgNames|
    ensures verdict == PairVerdict(ck, site, i, j, whichCheck)
  {
    hide CoverVerdict, StatsVerdict, Morphemes, MorphemesOfNames;
    var param1, param2 := NameOr(GetParamName(site, i)), NameOr(GetParamName(site, j));
    var param1Split := Split(param1);
    var param2Split := Split(param2);
    var params := (MorphemeSet(param1Split, i), MorphemeSet(param2Split, j));
    var arg1Morphemes := CollectMorphemes(site.positionalArgNames[i], i);
    var arg2Morphemes := CollectMorphemes(site.positionalArgNames[j], j);
    var args := (arg1Morphemes, arg2Morphemes);
    assert ViewOf(site, params, args) == View(site, i, j);
    SizeIsCardinality(args.0.morphemes);
    SizeIsCardinality(args.1.morphemes);
    SizeIsCardinality(params.0.morphemes);
    SizeIsCardinality(params.1.morphemes);

    if args.0.morphemes == [] || args.1.morphemes == [] {
      return Silent;
    }
    if param1 != "" && param2 != "" {
      if params.0.morphemes == [] || params.1.morphemes == [] {
        return Silent;
      }
      if whichCheck == All || whichCheck == CoverBased {
        var coverWarning := CheckForCoverBasedSwap(ck, params, args, site);
        if coverWarning != Silent {
          return coverWarning;
        }
      }
    }
    if (whichCheck == All || whichCheck == StatsBased) && ck.stats.Some? {
      verdict := CheckForStatisticsBasedSwap(ck.stats.value, ck.opts, params, args, site);
      return;
    }
    return Silent;
  }

  lemma CollectSnoc(verdict: Pair -> Verdict, pairs: seq<Pair>, k: nat)
    requires k < |pairs| && Collect(verdict, pairs[..k]).Completed?
    ensures var results := Collect(verdict, pairs[..k]).results;
            match verdict(pairs[k])
            case Fault => Collect(verdict, pairs) == Faulted
            case Silent => Collect(verdict, pairs[..k + 1]) == Completed(results)
            case Report(r) => Collect(verdict, pairs[..k + 1]) == Completed(results + [r])
  {
    assert pairs[..k + 1][..k] == pairs[..k];
    if verdict(pairs[k]).Fault? {
      FaultStays(verdict, pairs, k + 1);
    }
  }

  /** The loop of `CheckSite` over the pairs. */
  method CheckPairs(ck: Checker, site: CallSite, pairs: seq<Pair>, whichCheck: Check) returns (outcome: Outcome)
    requires forall k :: 0 <= k < |pairs| ==> pairs[k].0 < pairs[k].1 < |site.positionalArgNames|
    ensures outcome == Collect(Verdicts(ck, site, whichCheck), pairs)
  {
    ghost var verdicts := Verdicts(ck, site, whichCheck);
    var results: seq<SwapResult> := [];
    for k := 0 to |pairs|
      invariant Collect(verdicts, pairs[..k]) == Completed(results)
    {
      CollectSnoc(verdicts, pairs, k);
      var verdict := CheckPair(ck, site, pairs[k].0, pairs[k].1, whichCheck);
      match verdict {
        case Fault => return Faulted;
        case Silent =>
        case Report(r) => results := results + [r];
      }
    }
    assert pairs[..|pairs|] == pairs;
    return Completed(results);
  }

  /** `CheckSite`. */
  method CheckSite(ck: Checker, site: CallSite, whichCheck: Check) returns (outcome: Outcome)
    ensures outcome == SiteOutcome(ck, site, whichCheck)
  {
    var args := site.positionalArgNames;
    if |args| < 2 {
      return Completed([]);
    }
    var argPairs := PairwiseCombinations(|args|);
    if argPairs.None? {
      return Faulted;
    }
    AllPairsMeaning(|args|);
    assert forall k :: 0 <= k < |argPairs.value| ==> argPairs.value[k] in argPairs.value;
    outcome := CheckPairs(ck, site, argPairs.value, whichCheck);
  }
}
