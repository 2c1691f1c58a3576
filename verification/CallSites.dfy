/**
 Call sites, configuration and results (include/SwappedArgChecker.hpp), and the view of a call
 site that the checks of one pair of arguments work on.
 */
module CallSites {
  import opened Wrappers
  import opened IdentifierSplitting
  import opened UsageStatistics

  datatype CallDeclDescriptor = CallDeclDescriptor(
    fullyQualifiedName: string,
    paramNames: Option<seq<string>>)

  /** Each positional argument carries a list of names. */
  datatype CallSite = CallSite(callDecl: CallDeclDescriptor, positionalArgNames: seq<seq<string>>)

  datatype ScoreCard =
    | ParameterNameBased(score: real, statsVettedScore: Option<real>)
    | UsageStatisticsBased(fit1: real, fit2: real, psi1: real, psi2: real)

  /** `score()` of the two kinds of card. */
  function ScoreOf(card: ScoreCard): real {
    match card
    case ParameterNameBased(score, _) => score
    case UsageStatisticsBased(fit1, fit2, _, _) => if fit1 < fit2 then fit2 else fit1
  }

  /** A swapped argument error; argument indices are one-based. */
  datatype SwapResult = SwapResult(
    arg1: nat,
    arg2: nat,
    morphemes1: set<string>,
    morphemes2: set<string>,
    score: ScoreCard)

  datatype CheckerConfiguration = CheckerConfiguration(
    existingMorphemeMatchMax: real,
    swappedMorphemeMatchMin: real,
    statsSwappedMorphemeThreshold: real,
    statsSwappedFitnessThreshold: real,
    coverSwappedStatsVettingThreshold: real)

  const DEFAULT_CONFIGURATION := CheckerConfiguration(0.5, 0.75, 0.75, 0.75, 0.75)

  /** The checker: its options and, when a valid database was loaded, the statistics. */
  datatype Checker = Checker(opts: CheckerConfiguration, stats: Option<Table>)

  datatype Check = CoverBased | StatsBased | All

  /** What a check of one pair does; `Fault` is a failed assertion or an undefined read. */
  datatype Verdict = Fault | Silent | Report(result: SwapResult)

  datatype Outcome = Faulted | Completed(results: seq<SwapResult>)

  // ------------------------------------------------------------------------------------------
  // Names and morphemes of a call site
  // ------------------------------------------------------------------------------------------

  function GetParamName(site: CallSite, pos: nat): Option<string> {
    match site.callDecl.paramNames
    case None => None
    case Some(names) => if pos >= |names| then None else Some(names[pos])
  }

  /** `None` also stands for reading `back()` of an argument without names. */
  function GetLastArgName(site: CallSite, pos: nat): Option<string> {
    if pos >= |site.positionalArgNames| then None
    else
      var names := site.positionalArgNames[pos];
      if names == [] then None else Some(names[|names| - 1])
  }

  function NameOr(name: Option<string>): string {
    match name case None => "" case Some(s) => s
  }

  function MorphemesOfNames(names: seq<string>): set<string> {
    set name, m | name in names && m in Morphemes(name) :: m
  }

  lemma MorphemesOfOneName(name: string)
    ensures MorphemesOfNames([name]) == Morphemes(name)
  {
    assert name in [name];
  }

  /** The names of an argument all count, each on its own. */
  lemma MorphemesOfMoreNames(ones: seq<string>, twos: seq<string>)
    ensures MorphemesOfNames([]) == {}
    ensures MorphemesOfNames(ones + twos) == MorphemesOfNames(ones) + MorphemesOfNames(twos)
  {
    assert forall name :: name in ones + twos <==> name in ones || name in twos;
  }

  /** The morphemes of the parameter at a position; none when it is missing or unnamed. */
  function ParamMorphemes(site: CallSite, pos: nat): set<string> {
    Morphemes(NameOr(GetParamName(site, pos)))
  }

  /** Arguments beyond the declared parameters inherit no names. */
  lemma VariadicHasNoName(site: CallSite, names: seq<string>, pos: nat)
    requires site.callDecl.paramNames == Some(names)
    ensures pos >= |names| ==> GetParamName(site, pos) == None && ParamMorphemes(site, pos) == {}
    ensures pos < |names| ==> GetParamName(site, pos) == Some(names[pos]) && ParamMorphemes(site, pos) == Morphemes(names[pos])
  {
    MorphemesAreWellFormed("");
  }

  /** The morphemes of all names of the argument at a position. */
  function ArgMorphemes(site: CallSite, pos: nat): set<string> {
    if pos < |site.positionalArgNames| then MorphemesOfNames(site.positionalArgNames[pos]) else {}
  }

  // ------------------------------------------------------------------------------------------
  // The view of one pair
  // ------------------------------------------------------------------------------------------

  /** Everything the checks of the arguments at zero-based positions `i` and `j` depend on. */
  datatype PairView = PairView(
    func: string, i: nat, j: nat,
    param1: Option<string>, param2: Option<string>,
    last1: Option<string>, last2: Option<string>,
    p1: set<string>, p2: set<string>,
    a1: set<string>, a2: set<string>)

  function View(site: CallSite, i: nat, j: nat): PairView {
    PairView(
      site.callDecl.fullyQualifiedName, i, j,
      GetParamName(site, i), GetParamName(site, j),
      GetLastArgName(site, i), GetLastArgName(site, j),
      ParamMorphemes(site, i), ParamMorphemes(site, j),
      ArgMorphemes(site, i), ArgMorphemes(site, j))
  }
}
