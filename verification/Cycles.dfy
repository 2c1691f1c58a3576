/**
 Runs of repairs that come back, and those that do not: a run either visits no arrangement of the
 arguments twice, so that their number bounds it, or gives rise to runs of every length.
 */
module Cycles {
  import opened CallSites
  import opened SwappedArgChecker
  import opened Repair

  /** The run comes back to a call site that it has left. */
  ghost predicate Revisits(run: seq<CallSite>) {
    exists a, b :: 0 <= a < b < |run| && run[a] == run[b]
  }

  // ------------------------------------------------------------------------------------------
  // Arrangements of the arguments
  // ------------------------------------------------------------------------------------------

  /** All lists of `n` elements of a set. */
  ghost function Lists<T(!new)>(s: set<T>, n: nat): set<seq<T>> {
    if n == 0 then {[]} else set l, x | l in Lists(s, n - 1) && x in s :: l + [x]
  }

  lemma {:induction false} ListIsAmongLists<T(!new)>(l: seq<T>, s: set<T>)
    requires forall x :: x in l ==> x in s
    ensures l in Lists(s, |l|)
  {
    if l != [] {
      var init := l[..|l| - 1];
      ListIsAmongLists(init, s);
      assert l == init + [l[|l| - 1]];
    }
  }

  /** Pairwise different elements are no more than there are. */
  lemma {:induction false} DifferentElements<T>(l: seq<T>, s: set<T>)
    requires forall x :: x in l ==> x in s
    requires forall a, b :: 0 <= a < b < |l| ==> l[a] != l[b]
    ensures |l| <= |s|
  {
    if l != [] {
      DifferentElements(l[1..], s - {l[0]});
    }
  }

  /** The arrangements of the arguments of a call site. */
  ghost function Arrangements(site: CallSite): set<seq<seq<string>>> {
    var args := site.positionalArgNames;
    var lists := Lists(set names | names in args, |args|);
    set l | l in lists && multiset(l) == multiset(args)
  }

  lemma SameMultisetSameElements<T>(l: seq<T>, m: seq<T>)
    requires multiset(l) == multiset(m)
    ensures |l| == |m| && forall x :: x in l ==> x in m
  {
    assert |multiset(l)| == |l| && |multiset(m)| == |m|;
    assert forall x :: x in l ==> x in multiset(l);
  }

  lemma ArrangementsMeaning(site: CallSite, l: seq<seq<string>>)
    ensures l in Arrangements(site) <==> multiset(l) == multiset(site.positionalArgNames)
  {
    if multiset(l) == multiset(site.positionalArgNames) {
      SameMultisetSameElements(l, site.positionalArgNames);
      ListIsAmongLists(l, set names | names in site.positionalArgNames);
    }
  }

  lemma {:induction false} RunKeepsArguments(ck: Checker, mode: Check, run: seq<CallSite>, b: nat)
    requires RepairRun(ck, mode, run) && b < |run|
    ensures run[b].callDecl == run[0].callDecl
    ensures multiset(run[b].positionalArgNames) == multiset(run[0].positionalArgNames)
  {
    hide Verdicts;
    if b > 0 {
      RunKeepsArguments(ck, mode, run, b - 1);
      assert StepAt(ck, mode, run, b);
    }
  }

  /** A run that does not come back ends: it is no longer than there are arrangements. */
  lemma RunWithoutRevisitEnds(ck: Checker, mode: Check, run: seq<CallSite>)
    requires RepairRun(ck, mode, run) && !Revisits(run)
    ensures |run| <= |Arrangements(run[0])|
  {
    var args := seq(|run|, k requires 0 <= k < |run| => run[k].positionalArgNames);
    forall k | 0 <= k < |run|
      ensures run[k].callDecl == run[0].callDecl && args[k] in Arrangements(run[0])
    {
      RunKeepsArguments(ck, mode, run, k);
      ArrangementsMeaning(run[0], args[k]);
    }
    hide RepairRun, Arrangements;
    DifferentElements(args, Arrangements(run[0]));
  }

  // ------------------------------------------------------------------------------------------
  // Cycles
  // ------------------------------------------------------------------------------------------

  /** A run on whose call sites the checker completes. */
  ghost predicate CheckedRun(ck: Checker, mode: Check, run: seq<CallSite>) {
    RepairRun(ck, mode, run) && forall site :: site in run ==> SiteOutcome(ck, site, mode).Completed?
  }

  /** A run that leads back to where it started. */
  ghost predicate Cycle(ck: Checker, mode: Check, run: seq<CallSite>) {
    CheckedRun(ck, mode, run) && |run| > 1 && run[0] == run[|run| - 1]
  }

  lemma RunsJoin(ck: Checker, mode: Check, one: seq<CallSite>, two: seq<CallSite>)
    requires CheckedRun(ck, mode, one) && CheckedRun(ck, mode, two) && one[|one| - 1] == two[0]
    ensures CheckedRun(ck, mode, one + two[1..])
  {
    hide RepairStep;
    var run := one + two[1..];
    forall k | 0 < k < |run|
      ensures StepAt(ck, mode, run, k)
    {
      if k < |one| {
        assert StepAt(ck, mode, one, k);
      } else {
        assert StepAt(ck, mode, two, k - |one| + 1);
      }
    }
  }

  /** Going round a cycle often enough makes a run of any length. */
  lemma {:induction false} CyclesDoNotEnd(ck: Checker, mode: Check, cycle: seq<CallSite>, n: nat) returns (run: seq<CallSite>)
    requires Cycle(ck, mode, cycle)
    ensures CheckedRun(ck, mode, run) && |run| > n && run[0] == run[|run| - 1] == cycle[0]
  {
    hide CheckedRun;
    run := cycle;
    if n > 0 {
      run := CyclesDoNotEnd(ck, mode, cycle, n - 1);
      RunsJoin(ck, mode, run, cycle);
      run := run + cycle[1..];
    }
  }
}
