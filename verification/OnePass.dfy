/**
 One pass of the cover check when the parameters share no morphemes: its reports are exactly the
 crossed pairs, they form a matching, and acting on all of them at once leaves nothing to report.
 */
module OnePass {
  import opened Wrappers
  import opened PairEnumeration
  import opened IdentifierSplitting
  import opened CallSites
  import opened PairChecks
  import opened PairProperties
  import opened SwappedArgChecker
  import opened SiteProperties
  import opened Exchanges

  /** No two parameters of the arguments share a morpheme; different single-morpheme names are a special case. */
  ghost predicate DisjointParams(site: CallSite) {
    forall k: nat, l: nat :: k < l < |site.positionalArgNames| ==> ParamMorphemes(site, k) !! ParamMorphemes(site, l)
  }

  lemma SameSizeSubset<T>(s: set<T>, t: set<T>)
    requires s <= t && |s| == |t|
    ensures s == t
  {
    assert t == s + (t - s);
  }

  /** With disjoint parameters, crossed arguments are exactly the exchanged parameter names. */
  lemma CrossedIsExchanged(v: PairView)
    requires v.p1 !! v.p2 && v.p1 != {} && v.p2 != {}
    ensures CoverSwap(v) <==> |v.p1| == |v.p2| && v.a1 == v.p2 && v.a2 == v.p1
  {
    assert v.p2 - v.p1 == v.p2 && v.p1 - v.p2 == v.p1;
    if CoverSwap(v) {
      SameSizeSubset(v.p2, v.a1);
      SameSizeSubset(v.p1, v.a2);
    }
    if v.a1 == v.p2 && v.a2 == v.p1 {
      assert v.a1 - v.a2 == v.p2 && v.a2 - v.a1 == v.p1;
    }
  }

  /** Whatever the cover check does other than pass a pair over, the pair is crossed. */
  lemma NotSilentIsExchanged(ck: Checker, v: PairView)
    requires ck.opts.swappedMorphemeMatchMin > 0.0 && v.p1 !! v.p2
    requires VerdictOf(ck, v, CoverBased) != Silent
    ensures v.p1 != {} && v.p2 != {} && v.a1 == v.p2 && v.a2 == v.p1
  {
    CoverGuardsIff(ck.opts, v);
    CrossedIsExchanged(v);
  }

  lemma ReportIsExchanged(ck: Checker, site: CallSite, p: Pair)
    requires ck.opts.swappedMorphemeMatchMin > 0.0 && DisjointParams(site) && p.0 < p.1 < |site.positionalArgNames|
    requires Verdicts(ck, site, CoverBased)(p) != Silent
    ensures ArgMorphemes(site, p.0) == ParamMorphemes(site, p.1) != {}
    ensures ArgMorphemes(site, p.1) == ParamMorphemes(site, p.0) != {}
  {
    NotSilentIsExchanged(ck, View(site, p.0, p.1));
  }

  // ------------------------------------------------------------------------------------------
  // The reports form a matching
  // ------------------------------------------------------------------------------------------

  predicate InPair(p: Pair, k: nat) {
    k == p.0 || k == p.1
  }

  function Other(p: Pair, k: nat): nat
    requires InPair(p, k)
  {
    if k == p.0 then p.1 else p.0
  }

  /** The argument at a position of a reported pair carries the other position's parameter name. */
  lemma ReportedArgument(ck: Checker, site: CallSite, p: Pair, k: nat)
    requires ck.opts.swappedMorphemeMatchMin > 0.0 && DisjointParams(site) && p.0 < p.1 < |site.positionalArgNames| && InPair(p, k)
    requires Verdicts(ck, site, CoverBased)(p).Report?
    ensures ArgMorphemes(site, k) == ParamMorphemes(site, Other(p, k)) != {}
    ensures ArgMorphemes(site, Other(p, k)) == ParamMorphemes(site, k)
  {
    ReportIsExchanged(ck, site, p);
  }

  /** Each argument is in at most one report; in particular no longer rotation is reported. */
  lemma ReportsAreDisjoint(ck: Checker, site: CallSite, p: Pair, q: Pair, k: nat)
    requires ck.opts.swappedMorphemeMatchMin > 0.0 && DisjointParams(site)
    requires p.0 < p.1 < |site.positionalArgNames| && q.0 < q.1 < |site.positionalArgNames|
    requires InPair(p, k) && InPair(q, k)
    requires Verdicts(ck, site, CoverBased)(p).Report? && Verdicts(ck, site, CoverBased)(q).Report?
    ensures p == q
  {
    ReportedArgument(ck, site, p, k);
    ReportedArgument(ck, site, q, k);
    assert Other(p, k) == Other(q, k);
  }

  /** The pairs of a list of reports, and what makes it a matching on n arguments. */
  ghost predicate Matching(rs: seq<SwapResult>, n: nat) {
    (forall r :: r in rs ==> 1 <= r.arg1 < r.arg2 <= n)
    && forall a, b :: 0 <= a < b < |rs| ==>
         rs[a].arg1 != rs[b].arg1 && rs[a].arg1 != rs[b].arg2 && rs[a].arg2 != rs[b].arg1 && rs[a].arg2 != rs[b].arg2
  }

  ghost function Touched(rs: seq<SwapResult>): set<nat> {
    if rs == [] then {} else Touched(rs[..|rs| - 1]) + {rs[|rs| - 1].arg1, rs[|rs| - 1].arg2}
  }

  lemma {:induction false} TouchedMeaning(rs: seq<SwapResult>)
    ensures forall k :: k in Touched(rs) <==> exists r :: r in rs && (k == r.arg1 || k == r.arg2)
  {
    if rs != [] {
      TouchedMeaning(rs[..|rs| - 1]);
      assert rs == rs[..|rs| - 1] + [rs[|rs| - 1]];
    }
  }

  lemma PrefixIsMatching(rs: seq<SwapResult>, n: nat)
    requires rs != [] && Matching(rs, n)
    ensures Matching(rs[..|rs| - 1], n)
    ensures var last := rs[|rs| - 1];
            last.arg1 != last.arg2 && last.arg1 !in Touched(rs[..|rs| - 1]) && last.arg2 !in Touched(rs[..|rs| - 1])
  {
    var init, last := rs[..|rs| - 1], rs[|rs| - 1];
    assert last in rs && forall r :: r in init ==> r in rs;
    TouchedMeaning(init);
  }

  lemma {:induction false} TouchedCount(rs: seq<SwapResult>, n: nat)
    requires Matching(rs, n)
    ensures |Touched(rs)| == 2 * |rs|
  {
    if rs != [] {
      var init, last := rs[..|rs| - 1], rs[|rs| - 1];
      PrefixIsMatching(rs, n);
      hide Matching;
      TouchedCount(init, n);
      assert Touched(init) !! {last.arg1, last.arg2};
      assert |{last.arg1, last.arg2}| == 2;
    }
  }

  lemma {:induction false} BoundedSetIsSmall(s: set<nat>, n: nat)
    requires forall k :: k in s ==> 1 <= k <= n
    ensures |s| <= n
  {
    if n == 0 {
      assert s == {};
    } else {
      BoundedSetIsSmall(s - {n}, n - 1);
    }
  }

  lemma MatchingIsSmall(rs: seq<SwapResult>, n: nat)
    requires Matching(rs, n)
    ensures 2 * |rs| <= n
  {
    TouchedCount(rs, n);
    TouchedMeaning(rs);
    BoundedSetIsSmall(Touched(rs), n);
  }

  lemma CoverReportsFormMatching(ck: Checker, site: CallSite)
    requires ck.opts.swappedMorphemeMatchMin > 0.0 && DisjointParams(site)
    requires SiteOutcome(ck, site, CoverBased).Completed?
    ensures Matching(SiteOutcome(ck, site, CoverBased).results, |site.positionalArgNames|)
    ensures 2 * |SiteOutcome(ck, site, CoverBased).results| <= |site.positionalArgNames|
  {
    hide SiteOutcome, Verdicts, DisjointParams;
    OutcomeMeaning(ck, site, CoverBased);
    var rs := SiteOutcome(ck, site, CoverBased).results;
    forall a, b | 0 <= a < b < |rs|
      ensures rs[a].arg1 != rs[b].arg1 && rs[a].arg1 != rs[b].arg2
      ensures rs[a].arg2 != rs[b].arg1 && rs[a].arg2 != rs[b].arg2
    {
      assert rs[a] in rs && rs[b] in rs;
      var p, q := PairOf(rs[a]), PairOf(rs[b]);
      assert p != q;
      if k: nat :| k in {p.0, p.1} && InPair(q, k) {
        ReportsAreDisjoint(ck, site, p, q, k);
      }
      assert InPair(q, q.0) && InPair(q, q.1);
    }
    MatchingIsSmall(rs, |site.positionalArgNames|);
  }

  // ------------------------------------------------------------------------------------------
  // Acting on all reports
  // ------------------------------------------------------------------------------------------

  /** The arguments after the exchanges of the first `m` reports, one after the other. */
  ghost function AppliedUpTo<T>(args: seq<T>, rs: seq<SwapResult>, m: nat): (args': seq<T>)
    requires Matching(rs, |args|) && m <= |rs|
    ensures |args'| == |args|
  {
    if m == 0 then args
    else
      assert rs[m - 1] in rs;
      Swapped(AppliedUpTo(args, rs, m - 1), rs[m - 1].arg1 - 1, rs[m - 1].arg2 - 1)
  }

  ghost function Applied<T>(args: seq<T>, rs: seq<SwapResult>): (args': seq<T>)
    requires Matching(rs, |args|)
    ensures |args'| == |args|
  {
    AppliedUpTo(args, rs, |rs|)
  }

  lemma InMatching(rs: seq<SwapResult>, n: nat, a: nat)
    requires Matching(rs, n) && a < |rs|
    ensures 1 <= rs[a].arg1 < rs[a].arg2 <= n
  {
  }

  /** Two reports of a matching share no position. */
  lemma MatchingIsDisjoint(rs: seq<SwapResult>, n: nat, a: nat, b: nat, k: nat)
    requires Matching(rs, n) && a < b < |rs|
    requires rs[a].arg1 > 0 && rs[a].arg2 > 0 && rs[b].arg1 > 0 && rs[b].arg2 > 0
    ensures !(InPair(PairOf(rs[a]), k) && InPair(PairOf(rs[b]), k))
  {
  }

  lemma {:induction false} UntouchedStays<T>(args: seq<T>, rs: seq<SwapResult>, m: nat, k: nat)
    requires Matching(rs, |args|) && m <= |rs| && k < |args|
    requires forall a :: 0 <= a < m ==> rs[a].arg1 - 1 != k && rs[a].arg2 - 1 != k
    ensures AppliedUpTo(args, rs, m)[k] == args[k]
  {
    if m > 0 {
      InMatching(rs, |args|, m - 1);
      UntouchedStays(args, rs, m - 1, k);
    }
  }

  lemma AppliedStep<T>(args: seq<T>, rs: seq<SwapResult>, m: nat)
    requires Matching(rs, |args|) && m < |rs|
    ensures 1 <= rs[m].arg1 < rs[m].arg2 <= |args|
    ensures AppliedUpTo(args, rs, m + 1) == Swapped(AppliedUpTo(args, rs, m), rs[m].arg1 - 1, rs[m].arg2 - 1)
  {
  }

  lemma PartnerIsUntouched(rs: seq<SwapResult>, n: nat, a: nat, k: nat)
    requires Matching(rs, n) && a < |rs|
    requires 1 <= rs[a].arg1 < rs[a].arg2 <= n && InPair(PairOf(rs[a]), k)
    ensures forall b :: 0 <= b < a ==>
              rs[b].arg1 - 1 != Other(PairOf(rs[a]), k) && rs[b].arg2 - 1 != Other(PairOf(rs[a]), k)
  {
  }

  lemma {:induction false} TouchedIsExchanged<T>(args: seq<T>, rs: seq<SwapResult>, m: nat, k: nat, a: nat)
    requires Matching(rs, |args|) && a < m <= |rs| && k < |args|
    requires 1 <= rs[a].arg1 < rs[a].arg2 <= |args| && InPair(PairOf(rs[a]), k)
    ensures AppliedUpTo(args, rs, m)[k] == args[Other(PairOf(rs[a]), k)]
  {
    hide Matching, AppliedUpTo;
    AppliedStep(args, rs, m - 1);
    if a == m - 1 {
      PartnerIsUntouched(rs, |args|, a, k);
      UntouchedStays(args, rs, a, Other(PairOf(rs[a]), k));
    } else {
      MatchingIsDisjoint(rs, |args|, a, m - 1, k);
      TouchedIsExchanged(args, rs, m - 1, k, a);
    }
  }

  /** Since the reports form a matching, their order does not matter: each pair is exchanged and
      every other argument stays. */
  lemma AppliedAt<T>(args: seq<T>, rs: seq<SwapResult>, k: nat)
    requires Matching(rs, |args|) && k < |args|
    ensures forall r :: r in rs && InPair(PairOf(r), k) ==> Applied(args, rs)[k] == args[Other(PairOf(r), k)]
    ensures (forall r :: r in rs ==> !InPair(PairOf(r), k)) ==> Applied(args, rs)[k] == args[k]
  {
    forall r | r in rs && InPair(PairOf(r), k)
      ensures Applied(args, rs)[k] == args[Other(PairOf(r), k)]
    {
      var a :| 0 <= a < |rs| && rs[a] == r;
      TouchedIsExchanged(args, rs, |rs|, k, a);
    }
    if forall r :: r in rs ==> !InPair(PairOf(r), k) {
      forall a | 0 <= a < |rs|
        ensures rs[a].arg1 - 1 != k && rs[a].arg2 - 1 != k
      {
        assert rs[a] in rs && !InPair(PairOf(rs[a]), k);
      }
      UntouchedStays(args, rs, |rs|, k);
    }
  }

  /** Exchanges the arguments of every report, in place. */
  method ApplyAll<T>(args: array<T>, rs: seq<SwapResult>)
    requires Matching(rs, args.Length)
    modifies args
    ensures args[..] == Applied(old(args[..]), rs)
  {
    ghost var before := args[..];
    hide Matching;
    for m := 0 to |rs|
      invariant args[..] == AppliedUpTo(before, rs, m)
    {
      InMatching(rs, args.Length, m);
      var i, j := rs[m].arg1 - 1, rs[m].arg2 - 1;
      ExchangeInPlace(args, i, j);
    }
  }

  ghost function AppliedSite(site: CallSite, rs: seq<SwapResult>): CallSite
    requires Matching(rs, |site.positionalArgNames|)
  {
    site.(positionalArgNames := Applied(site.positionalArgNames, rs))
  }

  /** An exchanged argument is at its parameter. */
  lemma AppliedArgument(ck: Checker, site: CallSite, rs: seq<SwapResult>, r: SwapResult, k: nat)
    requires ck.opts.swappedMorphemeMatchMin > 0.0 && DisjointParams(site)
    requires Matching(rs, |site.positionalArgNames|) && k < |site.positionalArgNames|
    requires r in rs && InPair(PairOf(r), k) && Verdicts(ck, site, CoverBased)(PairOf(r)).Report?
    ensures ArgMorphemes(AppliedSite(site, rs), k) == ParamMorphemes(site, k) != {}
  {
    AppliedAt(site.positionalArgNames, rs, k);
    ReportedArgument(ck, site, PairOf(r), k);
    ReportIsExchanged(ck, site, PairOf(r));
    hide Verdicts, Applied, Matching, MorphemesOfNames, ParamMorphemes;
  }

  lemma UnmovedPairKeepsVerdict(ck: Checker, site: CallSite, site': CallSite, p: Pair)
    requires site'.callDecl == site.callDecl && |site'.positionalArgNames| == |site.positionalArgNames|
    requires p.0 < p.1 < |site.positionalArgNames|
    requires site'.positionalArgNames[p.0] == site.positionalArgNames[p.0]
    requires site'.positionalArgNames[p.1] == site.positionalArgNames[p.1]
    ensures Verdicts(ck, site', CoverBased)(p) == Verdicts(ck, site, CoverBased)(p)
  {
    assert View(site', p.0, p.1) == View(site, p.0, p.1);
    hide View, VerdictOf;
  }

  lemma SameParams(site: CallSite, site': CallSite)
    requires site'.callDecl == site.callDecl && |site'.positionalArgNames| == |site.positionalArgNames|
    ensures forall k: nat :: ParamMorphemes(site', k) == ParamMorphemes(site, k)
    ensures DisjointParams(site) ==> DisjointParams(site')
  {
  }

  /** Where the applied site does not pass a pair over, no report has touched the pair. */
  lemma NotSilentIsUntouched(ck: Checker, site: CallSite, rs: seq<SwapResult>, p: Pair, r: SwapResult)
    requires ck.opts.swappedMorphemeMatchMin > 0.0 && DisjointParams(site)
    requires Matching(rs, |site.positionalArgNames|) && p.0 < p.1 < |site.positionalArgNames|
    requires forall x :: x in rs ==> Verdicts(ck, site, CoverBased)(PairOf(x)).Report?
    requires Verdicts(ck, AppliedSite(site, rs), CoverBased)(p) != Silent
    requires r in rs
    ensures !InPair(PairOf(r), p.0) && !InPair(PairOf(r), p.1)
  {
    SameParams(site, AppliedSite(site, rs));
    ReportIsExchanged(ck, AppliedSite(site, rs), p);
    assert ParamMorphemes(site, p.0) !! ParamMorphemes(site, p.1);
    hide Verdicts, Matching, ArgMorphemes, ParamMorphemes, DisjointParams, AppliedSite;
    if InPair(PairOf(r), p.0) {
      AppliedArgument(ck, site, rs, r, p.0);
    }
    if InPair(PairOf(r), p.1) {
      AppliedArgument(ck, site, rs, r, p.1);
    }
  }

  lemma SilentOrTouched(ck: Checker, site: CallSite, rs: seq<SwapResult>, p: Pair)
    requires SiteOutcome(ck, site, CoverBased) == Completed(rs) && p.0 < p.1 < |site.positionalArgNames|
    requires forall r :: r in rs ==> r.arg1 > 0 && r.arg2 > 0
    ensures Verdicts(ck, site, CoverBased)(p) == Silent || exists r :: r in rs && InPair(PairOf(r), p.0)
  {
    hide SiteOutcome, Verdicts;
    FaultedIff(ck, site, CoverBased);
    OutcomeMeaning(ck, site, CoverBased);
    VerdictsNameTheirPair(ck, site, CoverBased);
    if Verdicts(ck, site, CoverBased)(p).Report? {
      var r := Verdicts(ck, site, CoverBased)(p).result;
      assert r in rs && PairOf(r) == p && InPair(PairOf(r), p.0);
    }
  }

  lemma SilentAfterwards(ck: Checker, site: CallSite, rs: seq<SwapResult>, p: Pair)
    requires ck.opts.swappedMorphemeMatchMin > 0.0 && DisjointParams(site)
    requires SiteOutcome(ck, site, CoverBased) == Completed(rs) && Matching(rs, |site.positionalArgNames|)
    requires p.0 < p.1 < |site.positionalArgNames|
    ensures Verdicts(ck, AppliedSite(site, rs), CoverBased)(p) == Silent
  {
    hide SiteOutcome, Verdicts, Matching, DisjointParams;
    var site' := AppliedSite(site, rs);
    OutcomeMeaning(ck, site, CoverBased);
    if Verdicts(ck, site', CoverBased)(p) != Silent {
      forall r | r in rs
        ensures !InPair(PairOf(r), p.0) && !InPair(PairOf(r), p.1)
      {
        NotSilentIsUntouched(ck, site, rs, p, r);
      }
      AppliedAt(site.positionalArgNames, rs, p.0);
      AppliedAt(site.positionalArgNames, rs, p.1);
      UnmovedPairKeepsVerdict(ck, site, site', p);
      SilentOrTouched(ck, site, rs, p);
    }
  }

  lemma EmptyOrInhabited<T>(s: seq<T>)
    ensures s == [] || exists x :: x in s
  {
    if s != [] {
      assert s[0] in s;
    }
  }

  lemma AllSilent(ck: Checker, site: CallSite)
    requires |site.positionalArgNames| <= NOT_FOUND
    requires forall p: Pair :: p.0 < p.1 < |site.positionalArgNames| ==> Verdicts(ck, site, CoverBased)(p) == Silent
    ensures SiteOutcome(ck, site, CoverBased) == Completed([])
  {
    hide SiteOutcome, Verdicts;
    FaultedIff(ck, site, CoverBased);
    var rs := SiteOutcome(ck, site, CoverBased).results;
    EmptyOrInhabited(rs);
    OutcomeMeaning(ck, site, CoverBased);
  }

  /** One pass is a fixed point: after all reports of the cover check have been acted upon, the cover
      check reports nothing. */
  lemma OnePassIsEnough(ck: Checker, site: CallSite)
    requires ck.opts.swappedMorphemeMatchMin > 0.0 && DisjointParams(site)
    requires SiteOutcome(ck, site, CoverBased).Completed?
    ensures Matching(SiteOutcome(ck, site, CoverBased).results, |site.positionalArgNames|)
    ensures SiteOutcome(ck, AppliedSite(site, SiteOutcome(ck, site, CoverBased).results), CoverBased) == Completed([])
  {
    CoverReportsFormMatching(ck, site);
    var rs := SiteOutcome(ck, site, CoverBased).results;
    var site' := AppliedSite(site, rs);
    forall p: Pair | p.0 < p.1 < |site.positionalArgNames|
      ensures Verdicts(ck, site', CoverBased)(p) == Silent
    {
      SilentAfterwards(ck, site, rs, p);
    }
    FaultedIff(ck, site, CoverBased);
    AllSilent(ck, site');
  }

  /** Checks once, acts on every report in place, and is done. */
  method FixInOnePass(ck: Checker, callDecl: CallDeclDescriptor, args: array<seq<string>>) returns (swaps: nat)
    requires ck.opts.swappedMorphemeMatchMin > 0.0 && DisjointParams(CallSite(callDecl, args[..]))
    requires SafeNames(args[..]) && args.Length <= NOT_FOUND
    modifies args
    ensures SiteOutcome(ck, CallSite(callDecl, args[..]), CoverBased) == Completed([])
    ensures 2 * swaps <= args.Length
  {
    var site := CallSite(callDecl, args[..]);
    SafeNamesRunsAreDefined(ck, site, CoverBased);
    CoverReportsFormMatching(ck, site);
    OnePassIsEnough(ck, site);
    var outcome := CheckSite(ck, site, CoverBased);
    ApplyAll(args, outcome.results);
    swaps := |outcome.results|;
  }

  // ------------------------------------------------------------------------------------------
  // Planted swaps
  // ------------------------------------------------------------------------------------------

  ghost predicate NamedLikeParam(site: CallSite, k: nat) {
    ArgMorphemes(site, k) == ParamMorphemes(site, k) != {}
    && GetLastArgName(site, k) != Some("")
  }

  /** A call site on which every argument carries the name of its parameter. */
  ghost predicate WellNamed(site: CallSite) {
    DisjointParams(site)
    && forall k :: 0 <= k < |site.positionalArgNames| ==> NamedLikeParam(site, k)
  }

  /** The same call with its arguments rearranged in any way: the one at `k` belongs at `source(k)`. */
  ghost predicate Rearranged(site: CallSite, correct: CallSite, source: nat -> nat) {
    site.callDecl == correct.callDecl
    && |site.positionalArgNames| == |correct.positionalArgNames|
    && forall k: nat :: k < |correct.positionalArgNames| ==>
         source(k) < |correct.positionalArgNames| && site.positionalArgNames[k] == correct.positionalArgNames[source(k)]
  }

  /** The two arguments of the pair are at each other's place. */
  predicate Planted(source: nat -> nat, p: Pair) {
    source(p.0) == p.1 && source(p.1) == p.0
  }

  /** The statistics find a morpheme of one of the two arguments at home where it is. */
  ghost predicate Withheld(ck: Checker, site: CallSite, p: Pair) {
    ck.stats.Some? && AtHome(ck.stats.value, View(site, p.0, p.1), ck.opts.coverSwappedStatsVettingThreshold)
  }

  /** The checker has nothing against reporting the pair, should it be planted. */
  ghost predicate Detectable(ck: Checker, site: CallSite, p: Pair) {
    var v := View(site, p.0, p.1);
    |v.p1| == |v.p2| && !Filtered(v.param1, v.param2) && !Filtered(v.last1, v.last2) && !Withheld(ck, site, p)
  }

  lemma RearrangedArgument(site: CallSite, correct: CallSite, source: nat -> nat, k: nat)
    requires WellNamed(correct) && Rearranged(site, correct, source) && k < |site.positionalArgNames|
    ensures source(k) < |site.positionalArgNames| && ArgMorphemes(site, k) == ParamMorphemes(site, source(k)) != {}
    ensures ParamMorphemes(site, k) != {} && GetLastArgName(site, k) != Some("")
    ensures GetParamName(site, k).Some?
  {
    SameParams(correct, site);
    assert NamedLikeParam(correct, source(k)) && NamedLikeParam(correct, k);
    MorphemesAreWellFormed("");
  }

  /** The morphemes of a parameter occur at no other parameter. */
  lemma ParamsIdentify(site: CallSite, k: nat, l: nat)
    requires DisjointParams(site) && k < |site.positionalArgNames| && l < |site.positionalArgNames|
    requires ParamMorphemes(site, k) == ParamMorphemes(site, l) != {}
    ensures k == l
  {
  }

  lemma PlantedIsCrossed(site: CallSite, correct: CallSite, source: nat -> nat, p: Pair)
    requires WellNamed(correct) && Rearranged(site, correct, source) && p.0 < p.1 < |site.positionalArgNames|
    ensures var v := View(site, p.0, p.1);
            CoverSwap(v) <==> Planted(source, p) && |v.p1| == |v.p2|
  {
    SameParams(correct, site);
    RearrangedArgument(site, correct, source, p.0);
    RearrangedArgument(site, correct, source, p.1);
    var v := View(site, p.0, p.1);
    CrossedIsExchanged(v);
    hide ParamMorphemes, ArgMorphemes, Rearranged, WellNamed, CoverSwap;
    if v.a1 == v.p2 && v.a2 == v.p1 {
      ParamsIdentify(site, source(p.0), p.1);
      ParamsIdentify(site, source(p.1), p.0);
    }
  }

  /** However the arguments of a well-named call are rearranged, the cover check reports exactly the
      planted pairs it has nothing against, and never faults. */
  lemma PlantedVerdict(ck: Checker, site: CallSite, correct: CallSite, source: nat -> nat, p: Pair)
    requires ck.opts.swappedMorphemeMatchMin > 0.0 && CoverCanReport(ck.opts)
    requires WellNamed(correct) && Rearranged(site, correct, source) && p.0 < p.1 < |site.positionalArgNames|
    ensures Verdicts(ck, site, CoverBased)(p) != Fault
    ensures Verdicts(ck, site, CoverBased)(p).Report? <==> Planted(source, p) && Detectable(ck, site, p)
  {
    var v := View(site, p.0, p.1);
    RearrangedArgument(site, correct, source, p.0);
    RearrangedArgument(site, correct, source, p.1);
    FaultIff(ck, site, p.0, p.1, CoverBased);
    PlantedIsCrossed(site, correct, source, p);
    SuppressedIff(ck, v);
    hide ParamMorphemes, ArgMorphemes, Rearranged, WellNamed, CoverSwap, Suppressed, CoverVerdict, AtHome, Filtered, Planted;
    assert BothNamed(v);
    CoverReportIff(ck, v);
  }

  /** The pair of a position and another one, in order. */
  function PairWith(k: nat, other: nat): Pair {
    if k < other then (k, other) else (other, k)
  }

  ghost predicate ComesBack(ck: Checker, site: CallSite, source: nat -> nat, k: nat) {
    source(k) == k || (source(source(k)) == k && Detectable(ck, site, PairWith(k, source(k))))
  }

  lemma ReportedPairIsAmong(ck: Checker, site: CallSite, rs: seq<SwapResult>, p: Pair)
    requires SiteOutcome(ck, site, CoverBased) == Completed(rs) && p.0 < p.1 < |site.positionalArgNames|
    requires Verdicts(ck, site, CoverBased)(p).Report?
    requires forall r :: r in rs ==> r.arg1 > 0 && r.arg2 > 0
    ensures exists r :: r in rs && PairOf(r) == p
  {
    hide SiteOutcome, Verdicts;
    OutcomeMeaning(ck, site, CoverBased);
    VerdictsNameTheirPair(ck, site, CoverBased);
    var r := Verdicts(ck, site, CoverBased)(p).result;
    assert r in rs && PairOf(r) == p;
  }

  lemma ArgumentsDiffer(correct: CallSite, k: nat, other: nat)
    requires WellNamed(correct) && k < |correct.positionalArgNames| && other < |correct.positionalArgNames| && k != other
    ensures correct.positionalArgNames[k] != correct.positionalArgNames[other]
  {
    assert NamedLikeParam(correct, k) && NamedLikeParam(correct, other);
  }

  /** A report that touches a position brings the right argument there. */
  lemma ReportRestores(ck: Checker, site: CallSite, correct: CallSite, source: nat -> nat, rs: seq<SwapResult>, r: SwapResult, k: nat)
    requires ck.opts.swappedMorphemeMatchMin > 0.0 && CoverCanReport(ck.opts)
    requires WellNamed(correct) && Rearranged(site, correct, source) && k < |site.positionalArgNames|
    requires SiteOutcome(ck, site, CoverBased) == Completed(rs) && Matching(rs, |site.positionalArgNames|)
    requires r in rs && InPair(PairOf(r), k)
    ensures Applied(site.positionalArgNames, rs)[k] == correct.positionalArgNames[k] && ComesBack(ck, site, source, k)
  {
    hide SiteOutcome, Verdicts, WellNamed, Detectable, Applied;
    OutcomeMeaning(ck, site, CoverBased);
    AppliedAt(site.positionalArgNames, rs, k);
    PlantedVerdict(ck, site, correct, source, PairOf(r));
    assert Other(PairOf(r), k) == source(k) && PairOf(r) == PairWith(k, source(k));
  }

  /** An argument comes back exactly when it is where it belongs or in a detectable planted pair. */
  lemma PlantedIsRestoredAt(ck: Checker, site: CallSite, correct: CallSite, source: nat -> nat, rs: seq<SwapResult>, k: nat)
    requires ck.opts.swappedMorphemeMatchMin > 0.0 && CoverCanReport(ck.opts)
    requires WellNamed(correct) && Rearranged(site, correct, source) && k < |site.positionalArgNames|
    requires SiteOutcome(ck, site, CoverBased) == Completed(rs) && Matching(rs, |site.positionalArgNames|)
    ensures Applied(site.positionalArgNames, rs)[k] == correct.positionalArgNames[k] <==> ComesBack(ck, site, source, k)
  {
    assert source(k) < |correct.positionalArgNames| && site.positionalArgNames[k] == correct.positionalArgNames[source(k)];
    hide SiteOutcome, Verdicts, WellNamed, Detectable, Applied, Rearranged;
    if r :| r in rs && InPair(PairOf(r), k) {
      ReportRestores(ck, site, correct, source, rs, r, k);
    } else {
      AppliedAt(site.positionalArgNames, rs, k);
      if source(k) != k {
        ArgumentsDiffer(correct, k, source(k));
        if source(source(k)) == k && Detectable(ck, site, PairWith(k, source(k))) {
          PlantedVerdict(ck, site, correct, source, PairWith(k, source(k)));
          ReportedPairIsAmong(ck, site, rs, PairWith(k, source(k)));
        }
      }
    }
  }

  lemma PlantedAreRestored(ck: Checker, site: CallSite, correct: CallSite, source: nat -> nat, rs: seq<SwapResult>)
    requires ck.opts.swappedMorphemeMatchMin > 0.0 && CoverCanReport(ck.opts)
    requires WellNamed(correct) && Rearranged(site, correct, source)
    requires SiteOutcome(ck, site, CoverBased) == Completed(rs) && Matching(rs, |site.positionalArgNames|)
    ensures AppliedSite(site, rs) == correct <==>
            forall k: nat :: k < |site.positionalArgNames| ==> ComesBack(ck, site, source, k)
  {
    var args := Applied(site.positionalArgNames, rs);
    forall k: nat | k < |args|
      ensures args[k] == correct.positionalArgNames[k] <==> ComesBack(ck, site, source, k)
    {
      PlantedIsRestoredAt(ck, site, correct, source, rs, k);
    }
    hide ComesBack, Matching, Applied;
    assert args == correct.positionalArgNames <==> forall k: nat :: k < |args| ==> args[k] == correct.positionalArgNames[k];
  }

  /**
   Exactly when one pass of the cover check repairs a call: for any rearrangement of the arguments of
   a well-named call, acting on all reports restores the call if and only if every misplaced argument
   has changed places with one other, and nothing the checker looks at tells against that pair.
   */
  lemma PlantedSwapsAreRestored(ck: Checker, site: CallSite, correct: CallSite, source: nat -> nat)
    requires ck.opts.swappedMorphemeMatchMin > 0.0 && CoverCanReport(ck.opts)
    requires WellNamed(correct) && Rearranged(site, correct, source) && |site.positionalArgNames| <= NOT_FOUND
    ensures var outcome, n := SiteOutcome(ck, site, CoverBased), |site.positionalArgNames|;
            outcome.Completed? && Matching(outcome.results, n)
            && (AppliedSite(site, outcome.results) == correct <==>
                forall k: nat :: k < n && source(k) != k ==>
                  source(source(k)) == k && Detectable(ck, site, PairWith(k, source(k))))
  {
    hide Verdicts, SiteOutcome, Detectable;
    forall p: Pair | p.0 < p.1 < |site.positionalArgNames|
      ensures Verdicts(ck, site, CoverBased)(p) != Fault
    {
      PlantedVerdict(ck, site, correct, source, p);
    }
    FaultedIff(ck, site, CoverBased);
    SameParams(correct, site);
    CoverReportsFormMatching(ck, site);
    PlantedAreRestored(ck, site, correct, source, SiteOutcome(ck, site, CoverBased).results);
    assert forall k: nat :: ComesBack(ck, site, source, k) <==>
             (source(k) != k ==> source(source(k)) == k && Detectable(ck, site, PairWith(k, source(k))));
  }

  /** A pair that the filter holds back is passed over, if it is looked at without a fault. */
  lemma FilteredIsSilent(ck: Checker, v: PairView)
    requires v.p1 != {} && v.p2 != {} && v.a1 != {} && v.a2 != {} && Filtered(v.param1, v.param2)
    ensures VerdictOf(ck, v, CoverBased) == Silent
  {
    hide CoverGuards, Suppressed;
  }

  function ExchangedNames(one: string, two: string): CallSite {
    CallSite(CallDeclDescriptor("f", Some([one, two])), [[two], [one]])
  }

  lemma ExchangedNamesAreCrossed(one: string, two: string)
    requires Plain(one) && Plain(two) && one != two
    ensures var v := View(ExchangedNames(one, two), 0, 1);
            CoverSwap(v) && v.p1 == {one} == v.a2 && v.p2 == {two} == v.a1
            && v.param1 == Some(one) && v.param2 == Some(two)
  {
    MorphemesOfPlainName(one);
    MorphemesOfPlainName(two);
    hide MorphemesOfNames, Morphemes;
    assert {one} - {two} == {one} && {two} - {one} == {two};
  }

  /** A planted swap of single names, not numbered alike, that the filter hides because it reads both
      final characters from the first name. */
  lemma MisreadSuffixHidesSwap(ck: Checker)
    ensures var site := ExchangedNames("size1", "sizes");
            CoverSwap(View(site, 0, 1)) && SiteOutcome(ck, site, CoverBased) == Completed([])
    ensures !SameStemNumbered("size1", "sizes") && !SameStemNumbered("sizes", "size1")
  {
    var site := ExchangedNames("size1", "sizes");
    assert "size1"[4] != "sizes"[4];
    SuffixCheckIsNotSymmetric();
    ExchangedNamesAreCrossed("size1", "sizes");
    hide SuffixCheck, VerdictOf, SiteOutcome, View, CoverSwap;
    FilteredIsSilent(ck, View(site, 0, 1));
    assert Verdicts(ck, site, CoverBased)((0, 1)) == Silent;
    hide Verdicts;
    AllSilent(ck, site);
  }
}
