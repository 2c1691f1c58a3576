# Swap detector: a verified model

The swap detector reports calls whose arguments seem to be passed in the wrong order. It splits
identifiers into morphemes, compares the morphemes of arguments and parameters (the cover-based
check), consults usage statistics (the statistics-based check and the vetting of cover reports), and
walks over all pairs of arguments of a call site.

The project models that engine in Dafny 4.11 and proves what its parts promise together. The results
of a run are characterised by a second, independent definition on the raw data (`Reference.dfy`). The
main results are about acting on the reports. For every configuration they say exactly when exchanging the
arguments of a reported pair is never undone by a later check, and exactly when repeating "check,
exchange" always ends, and bound the number of exchanges by the size of the call. For a rearranged call
whose parameters share no morphemes they say exactly which pairs the cover check reports, and when one
pass restores the call: every misplaced argument has changed places with one other that has equally many
morphemes, and neither a numeric suffix nor the statistics hold the pair back.

| file | contents |
|---|---|
| `OrderedSets.dfy` | `std::set<std::string>` as strictly sorted ranges and the algorithms on them |
| `IdentifierSplitting.dfy` | the splitter, its declarative meaning, conservation and round trips |
| `PairEnumeration.dfy` | `std::prev_permutation` on a bit vector and the pair enumerator |
| `UsageStatistics.dfy` | the statistics table, confidence and fitness |
| `CallSites.dfy` | call sites, configuration, results, the view of one pair |
| `PairChecks.dfy` | what the two checks decide about a pair, in terms of sets |
| `SwappedArgChecker.dfy` | the executable checks and `CheckSite`, proved equal to that |
| `PairProperties.dfy`, `SiteProperties.dfy` | what verdicts and results mean |
| `Reference.dfy` | what is reported, written out on names, rows and characters, and proved to agree with the model |
| `Exchanges.dfy` | acting on one report: no fix is undone |
| `Repair.dfy` | acting on reports one at a time: measures, bounds, one round of repair |
| `Cycles.dfy` | arrangements of the arguments, runs that come back |
| `Weighing.dfy` | a measure for confidence thresholds of 1 or more: how high morphemes rank where they are |
| `SmallTables.dfy`, `Limits.dfy`, `Endings.dfy` | the exact conditions, with a counterexample for every other configuration; the repair loop |
| `OnePass.dfy` | acting on all cover reports at once, rearranged calls |
| `Wrappers.dfy` | the optional value |

`dafny verify dfyconfig.toml` verifies everything.

## How the program is modelled

- A `std::set` is a strictly sorted sequence; loops over it are loops over that sequence. What a check
  decides is stated on mathematical sets, so its independence of the iteration order is part of what
  is proved.
- The checker is a value, its options and the statistics if any: its methods change no field.
- A failed assertion, a dereferenced absent optional, `back()` on an empty vector or reading the last
  character of an empty name is an outcome (`Fault`, `Faulted`, `None`), not a precondition.
  Assertions are taken as enabled.
- The statistics database is an immutable sequence of rows. Every weight is in (0, 1]; the schema also
  permits 0, which would be divided by. Two more promises of the database, one row per function,
  position and morpheme and a sum of weights of at most 1 at each position, are the predicate
  `Normalised` and are required only where they are needed.
- `float` is `real`, characters are classified as in the "C" locale, positions are unbounded except for
  the 32-bit sentinel of the pair enumerator.
- Thresholds are parameters, negative ones and those above 1 included. Fixes last
  exactly under `Exchanges.Lasting`, runs end exactly under `Endings.Ending`, both simple conditions on
  the configuration; below a confidence threshold of 1 the two agree. `Repair.Tuned` adds a fitness
  threshold of at least one half, which ending asks for anyway below that threshold, and sharpens the
  bound. The defaults are tuned (`Repair.DefaultsAreTuned`).

## Where the code and its comments differ

The model follows the code.

- The numeric suffix filter is meant to look at the last characters of both names but reads both from
  the first one, so it is not symmetric (`PairProperties.SuffixCheckIsSymmetricIff`) and hides swaps of names
  that are not numbered alike (`OnePass.MisreadSuffixHidesSwap`); its assertion checks the first name twice.
- The confidence of a morpheme is documented to be at most 1 but is an unclamped ratio
  (`UsageStatistics.ConfidenceInRangeIff`).
- The fitness is documented to be below 1 but can be 1 (`UsageStatistics.FitnessCanBeOne`,
  exactly when by `UsageStatistics.FitnessInUnitRange`).
- Scores are documented as 0 to 100; statistics reports score at most 1 (`PairProperties.ReportScores`).
- A capital ends a word only after a lower-case letter, so an inner single-letter word of a camelCase
  name is fused with the word after it (`IdentifierSplitting.CamelWords`, `CamelRoundTrip`).

## Model

| member | source | states |
|---|---|---|
| Limits.FixIsNeverUndoneIff | src/SwappedArgChecker.cpp:539-637 | for every configuration: over all call sites, all statistics as promised and all modes, exchanging the arguments of a reported pair is never followed by a report of that pair, exactly when the thresholds are lasting |
| Exchanges.FixIsNeverUndone | src/SwappedArgChecker.cpp:305-339 | with lasting thresholds, after the arguments of any reported pair are exchanged, no mode reports that pair on the new call site, whichever mode reported it before |
| Endings.RunsEndIff | src/SwappedArgChecker.cpp:539-637 | for every configuration and mode: over all call sites and statistics as promised, no run of "check, exchange any one reported pair" comes back; each is no longer than there are arrangements of its arguments; and each has at most (n(m+1)(w+2)+2w)/4 swaps for n arguments with m morphemes and w parameter morphemes: each of the three exactly when the thresholds are ending |
| Endings.EveryRunIsBounded | src/SwappedArgChecker.cpp:539-637 | that bound, for every run with ending thresholds, in every mode and with every choice |
| Endings.SwapBoundWrittenOut | src/SwappedArgChecker.cpp:539-637 | the bound as a number, with m and w the counted morphemes of the arguments and of their parameters |
| Endings.EndingRunsDoNotRevisit | src/SwappedArgChecker.cpp:539-637 | with ending thresholds no run comes back to an arrangement of the arguments it has left |
| Cycles.RunWithoutRevisitEnds | src/SwappedArgChecker.cpp:539-637 | a run that does not come back is no longer than there are arrangements of its arguments |
| Cycles.ArrangementsMeaning | src/SwappedArgChecker.cpp:539-637 | a list is an arrangement iff it has the same arguments with the same multiplicities |
| Repair.StepActsOnResult | src/SwappedArgChecker.cpp:539-637 | where the checker completes, a step of a run exchanges the arguments of one of its results |
| Endings.OthersCycle | src/SwappedArgChecker.cpp:539-637 | for every other configuration and mode: statistics as promised and a run of repairs that leads back to its start, on whose call sites the modelled CheckSite completes |
| Cycles.CyclesDoNotEnd | src/SwappedArgChecker.cpp:539-637 | from which runs of every length follow, on which it completes as well |
| Endings.EndingIsLasting | include/SwappedArgChecker.hpp:120-136 | thresholds that end repairs make every fix last; below a confidence threshold of 1 the two conditions are the same |
| Endings.LastingFixesCanGoRound | src/SwappedArgChecker.cpp:539-637 | in general they are not: statistics as promised and a call site with four arguments on which repairs go round for ever, every check completing, although no single fix is ever undone |
| Exchanges.CrossedIsNotReported | src/SwappedArgChecker.cpp:602-633 | the same for the view of one pair, by the four cases cover or statistics first, cover or statistics second |
| Exchanges.CoverThenCover | src/SwappedArgChecker.cpp:235-277 | a cover report is never followed by a cover report on the exchanged pair, with statistics or without |
| Exchanges.CoverThenStats | src/SwappedArgChecker.cpp:305-338 | statistics that let a cover report pass deny the statistics check the way back |
| Exchanges.StatsThenCover | src/SwappedArgChecker.cpp:305-338 | a statistics report makes the vetting suppress the cover check on the exchanged pair |
| Exchanges.StatsThenStats | src/SwappedArgChecker.cpp:488-493 | a statistics report is never followed by one on the exchanged pair: at most one morpheme is fit at a position, or the confidences exceed 1 |
| Exchanges.StatsSwapComesHome | src/SwappedArgChecker.cpp:305-338 | after a statistics report has been acted upon, the vetting finds a morpheme at home |
| Exchanges.StatsUndoneIff | src/SwappedArgChecker.cpp:452-516 | on an arbitrary table the statistics check undoes its own fix iff the arguments differ in one morpheme each and each of the two is fit and confident at both positions |
| Repair.TunedRunIsBounded | src/SwappedArgChecker.cpp:539-637 | with tuned thresholds the sharper bound (n(w+2)+2w)/4, which does not depend on the morphemes of the arguments |
| Repair.RunUsesSlack | src/SwappedArgChecker.cpp:539-637 | with tuned thresholds, along any run the lexicographic measure (settled positions, matching morphemes) strictly increases, by a fixed amount per swap |
| Repair.CoverRunIsBounded | src/SwappedArgChecker.cpp:235-277 | repair with the cover check alone makes at most (w - current matches)/2 swaps for w parameter morphemes, with or without statistics and for any table |
| Repair.StatsRunIsBounded | src/SwappedArgChecker.cpp:452-516 | with a fitness threshold of at least one half, whatever the others, repair with the statistics check alone settles two positions per swap and makes at most (n - settled)/2 swaps |
| Weighing.MatchesAreCounted | src/SwappedArgChecker.cpp:235-277 | the matches and w of these bounds are numbers of morphemes at positions |
| Weighing.SettledAreCounted | src/SwappedArgChecker.cpp:488-493 | the settled positions are those whose argument has a morpheme that is fit there |
| Repair.CoverStepGains | src/SwappedArgChecker.cpp:240-277 | acting on a cover report makes the matching morphemes grow by exactly the morphemes that tell the two parameters apart, at least two |
| Repair.CoverStepKeepsSettled | src/SwappedArgChecker.cpp:305-339 | acting on a cover report leaves no fewer positions settled: a fit morpheme that passes the vetting is fit for its new position too, which nothing settled before |
| Repair.StatsStepGains | src/SwappedArgChecker.cpp:488-493 | acting on a statistics report settles exactly two more positions, on every normalised table with a fitness threshold of at least one half |
| Weighing.StatsStepGainsRank | src/SwappedArgChecker.cpp:409-429 | with a confidence threshold of 1 or more, acting on a statistics report moves both its morphemes to positions that rank higher for them, on any table |
| Weighing.CoverStepKeepsRank | src/SwappedArgChecker.cpp:305-338 | with a vetting threshold below 1, acting on a cover report moves no morpheme to a position that ranks lower |
| Weighing.GainingRunIsBounded | src/SwappedArgChecker.cpp:539-637 | under both, every run has at most (nm(w+2)+2w)/4 swaps, whatever the fitness threshold and the table |
| Weighing.RankedStatsRunIsBounded | src/SwappedArgChecker.cpp:452-516 | with a confidence threshold of 1 or more, repair with the statistics check alone makes at most (nm - rank)/2 swaps, for any table |
| Limits.UnnormalisedTableCycles | src/SwappedArgChecker.cpp:112-115 | the promised sum of weights is needed: on a concrete table with larger sums there are runs of every length with the default options |
| Repair.RepairRound | src/SwappedArgChecker.cpp:539-637 | checks and exchanges an arbitrary reported pair in place: either nothing is reported or the array takes one repair step |
| Endings.RepairCallSite | src/SwappedArgChecker.cpp:539-637 | with ending thresholds the repair loop on an array of arguments ends with a call site on which the modelled CheckSite reports nothing, reached by a run of repairs and a permutation of the arguments, within the number of arrangements, the bound by size and, for tuned thresholds, the sharper one |
| OnePass.CrossedIsExchanged | src/SwappedArgChecker.cpp:235-277 | for parameters without common morphemes the cover condition says that the arguments carry exactly each other's parameter names |
| OnePass.CoverReportsFormMatching | src/SwappedArgChecker.cpp:551-634 | for parameters without common morphemes each argument is in at most one cover report, so no longer rotation is reported and there are at most n/2 reports |
| OnePass.ReportsAreDisjoint | src/SwappedArgChecker.cpp:551-634 | two cover reports that share a position are the same report |
| OnePass.AppliedAt | src/SwappedArgChecker.cpp:539-637 | exchanging the pairs of all reports one after the other exchanges each pair and moves nothing else, whatever their order |
| OnePass.ApplyAll | src/SwappedArgChecker.cpp:539-637 | the in-place exchanges of all reports yield that arrangement |
| OnePass.OnePassIsEnough | src/SwappedArgChecker.cpp:539-637 | after all cover reports have been acted upon at once, the cover check reports nothing and faults nowhere |
| OnePass.FixInOnePass | src/SwappedArgChecker.cpp:539-637 | the in-place one-pass fix ends in a call site without cover reports after at most n/2 swaps |
| OnePass.PlantedVerdict | src/SwappedArgChecker.cpp:222-356 | for any rearrangement of the arguments of a well-named call, rotations and duplicated arguments included, the cover check never faults and reports a pair iff its two arguments are at each other's place, their parameters have equally many morphemes, the suffix filter applies neither to the parameters nor to the last argument names, and the statistics find none of the morphemes at home |
| OnePass.PlantedSwapsAreRestored | src/SwappedArgChecker.cpp:539-637 | acting on the reports of one pass restores the well-named call iff every misplaced argument has changed places with one other and that pair meets these conditions |
| OnePass.MisreadSuffixHidesSwap | src/SwappedArgChecker.cpp:281-295 | arguments sizes, size1 for parameters size1, sizes are crossed and not numbered alike, and yet the cover check reports nothing |
| SwappedArgChecker.CheckSite | src/SwappedArgChecker.cpp:539-637 | the run over the call site equals the collected verdicts of all pairs, with faults as outcomes |
| Reference.ResultsAreReported | src/SwappedArgChecker.cpp:539-637 | for every configuration, table, call site and mode, a result is in a completed run iff it is one of the reports written out on the lists of names and the rows of the table, card and scores included; mode All takes the statistics report where there is no cover report, also for parameters without names; the results come in order |
| Reference.FaultedIffUndefined | src/SwappedArgChecker.cpp:203-217 | a run faults iff there are more than 2^32 - 1 arguments or, outside mode StatsBased, the last name of the first argument of a candidate pair is empty |
| Reference.CoverPairsIff | src/SwappedArgChecker.cpp:222-356 | mode CoverBased reports a pair iff both parameters are declared and named, their morphemes and those of the arguments meet the guards, neither filter applies and no row holds the pair back |
| Reference.StatsPairsIff | src/SwappedArgChecker.cpp:452-516 | mode StatsBased reports a pair iff there are statistics, the arguments have morphemes and differ in one each, named parameters have morphemes, and the rows make each of the two more common at the other place and heavy enough there |
| Reference.CoverResultsAreNamed | include/SwappedArgChecker.hpp:148-155 | a parameter-name based result, in any mode, is about two declared and named parameters, so never about a variadic argument, and its morphemes cover those that tell the two names apart crosswise |
| Reference.DefaultGuards | include/SwappedArgChecker.hpp:120-136 | with the defaults the guards come down to equal sizes, differences and crosswise coverage |
| Reference.DefaultStatistics | include/SwappedArgChecker.hpp:120-136 | with the defaults the three statistical thresholds are three quarters |
| SiteProperties.OutcomeMeaning | src/SwappedArgChecker.cpp:546-636 | the results are exactly the reports of the pairs i < j, strictly increasing in (arg1, arg2) with 1 <= arg1 < arg2 <= n |
| SiteProperties.ModeAllIsUnion | src/SwappedArgChecker.cpp:602-633 | the pairs of mode All are the union of those of the two single modes, with the cover result where both report |
| SiteProperties.FaultedIff | src/SwappedArgChecker.cpp:203-217 | a run violates an assertion or reads what is not there iff there are more than 0xFFFFFFFF arguments or some pair faults |
| PairProperties.FaultIff | src/SwappedArgChecker.cpp:281-295 | a pair faults iff the cover check gets past its guards and the parameter suffixes and the last name of the first argument is empty |
| SiteProperties.SafeNamesRunsAreDefined | src/SwappedArgChecker.cpp:598-610 | no run faults when no argument with morphemes ends in an empty name |
| SiteProperties.SingleNamesAreSafe | include/SwappedArgChecker.hpp:52-53 | arguments with at most one name satisfy that condition |
| SiteProperties.UnsafeNamesCanFault | src/SwappedArgChecker.cpp:282-283 | a concrete call site with two names for an argument on which the run does fault |
| SiteProperties.SpellingIndependence | src/SwappedArgChecker.cpp:561-594 | where no parameter name and no last argument name ends in a digit, the whole outcome depends on names only through their morphemes and on whether they are empty |
| SiteProperties.RespellingChangesNothing | src/SwappedArgChecker.cpp:561-594 | replacing names one by one by others with the same morphemes, empty ones by empty ones, leaves the outcome unchanged |
| SiteProperties.CamelForSnakeChangesNothing | src/IdentifierSplitting.cpp:43-54 | so does writing any of the names in camelCase instead of snake_case, as long as fusing keeps the set of their words and no name ends in a digit |
| PairProperties.CoverGuardsIff | src/SwappedArgChecker.cpp:235-277 | all guards together say: equal morpheme counts and P_j - P_i within A_i - A_j and P_i - P_j within A_j - A_i; the two optimistic guards are implied by the pessimistic ones |
| PairProperties.CoverReportIff | src/SwappedArgChecker.cpp:222-356 | a cover report is made iff the pair is crossed, no numeric suffix filter applies and the statistics do not object; its score is 100 |
| PairProperties.NumberedNamesAreFiltered | src/SwappedArgChecker.cpp:281-295 | no pair whose parameter names or last argument names differ only in a final digit gets a cover report |
| PairProperties.SuffixCheckIff | src/SwappedArgChecker.cpp:281-287 | the filter does what its comment says iff a numbered first name with the stem of the second comes with a numbered second name |
| Reference.SuffixCheckOnNames | src/SwappedArgChecker.cpp:281-287 | in characters: the first name is a stem and one of the ten digits, the second is the same stem and any one character, or empty where the stem is |
| PairProperties.SuffixCheckIsSymmetricIff | src/SwappedArgChecker.cpp:281-287 | exchanging two nonempty names leaves the answer of the filter unchanged iff equal stems come with equal answers on whether a digit follows |
| PairProperties.SuffixCheckIsNotSymmetric | src/SwappedArgChecker.cpp:284 | names on which it depends on their order |
| PairProperties.SuppressedIff | src/SwappedArgChecker.cpp:305-338 | the vetting folds suppress a pair iff some morpheme of only one argument has a defined confidence above the threshold at its own position |
| Reference.SuppressedInWeights | src/SwappedArgChecker.cpp:305-338 | in weights, for a threshold of 0 or more: some morpheme of only one argument is known at its own position and either unknown at the other with the threshold below 1, or heavier than the threshold times its weight there; one known only at the other place withholds nothing |
| PairProperties.VettedScoreMeaning | src/SwappedArgChecker.cpp:299-332 | the score on the card is absent iff no confidence is defined, and otherwise the greatest defined one |
| PairProperties.StatsReportMeaning | src/SwappedArgChecker.cpp:455-513 | a statistics report means A_i = C + {m1} and A_j = C + {m2} with m1, m2 outside C; it lists A_i - A_j = {m1} for the first argument and A_j - A_i = {m2} for the second, with the fitness and the confidence of each at the other's position |
| PairProperties.ReportScores | include/SwappedArgChecker.hpp:67-69 | a cover report scores 100; a statistics report scores the greater of its two fitnesses, above the threshold and at most 1 |
| PairProperties.ReportOrigin | src/SwappedArgChecker.cpp:611-632 | a report comes from one of the two checks and carries the one-based positions of its pair |
| SwappedArgChecker.CheckForCoverBasedSwap | src/SwappedArgChecker.cpp:222-356 | the executable check with its early exits equals the set-based verdict |
| SwappedArgChecker.CheckForStatisticsBasedSwap | src/SwappedArgChecker.cpp:452-516 | the nested loops with early return equal the order-free verdict on single-morpheme swaps |
| SwappedArgChecker.EqualRemainders | src/SwappedArgChecker.cpp:477-486 | equal remainders of the two disjoint differences leave one morpheme on each side |
| SwappedArgChecker.MorphemesMatch | src/SwappedArgChecker.cpp:381-394 | the biased fold is 1 or 0: all parameter morphemes covered (pessimistic), at least one covered (optimistic) |
| SwappedArgChecker.Vet | src/SwappedArgChecker.cpp:316-332 | a vetting fold ends with the maximum of the defined confidences seen |
| SwappedArgChecker.CollectMorphemes | src/SwappedArgChecker.cpp:584-590 | a morpheme is collected iff some name in the list of the argument has it |
| CallSites.MorphemesOfMoreNames | src/SwappedArgChecker.cpp:584-590 | the morphemes of two lists of names together are the union, those of no names are none |
| CallSites.VariadicHasNoName | include/SwappedArgChecker.hpp:148-155 | a position beyond the declared parameters has no parameter name and no parameter morphemes, any other those of its own name |
| SwappedArgChecker.CheckPair | src/SwappedArgChecker.cpp:561-633 | the body of the loop over pairs equals the verdict of the pair |
| PairEnumeration.PairwiseCombinations | src/SwappedArgChecker.cpp:197-219 | the bit-vector loop terminates; it returns the pairs of the double loop for 2 to 0xFFFFFFFF elements and fails an assertion for every other count |
| PairEnumeration.AllPairsMeaning | src/SwappedArgChecker.cpp:195-198 | the double loop yields exactly the pairs i < j < n, strictly increasing, n(n-1)/2 in all |
| PairEnumeration.PrevPermutation | src/SwappedArgChecker.cpp:217 | the in-place step yields the lexicographic predecessor, or the descending arrangement when there is none |
| PairEnumeration.PredecessorIsBelow | src/SwappedArgChecker.cpp:217 | the predecessor has the same number of set bits and is smaller |
| PairEnumeration.PredecessorIsNext | src/SwappedArgChecker.cpp:217 | no arrangement of the same bits lies between a bit string and its predecessor, and one without predecessor is the least |
| PairEnumeration.TwoHotStep | src/SwappedArgChecker.cpp:200-217 | a step takes the pair (i, j) to its lexicographic successor, keeps two bits set, and after the last pair restores the initial bits |
| PairEnumeration.ScanBits | src/SwappedArgChecker.cpp:204-215 | the scan finds the two set bits unless one sits at the sentinel index |
| UsageStatistics.ConfidenceInRangeIff | include/SwappedArgChecker.hpp:209-217 | the documented range 0 to 1 is kept iff the morpheme is not heavier at the queried position than at the compared one |
| Reference.ConfidenceMeaning | src/SwappedArgChecker.cpp:409-429 | in rows: the ratio of the two weights, 1 for a morpheme known only at the queried position, 0 for one known only at the compared one, and otherwise absent |
| Reference.NoConfidenceIff | src/SwappedArgChecker.cpp:424-425 | the confidence is 0 iff the morpheme is known only at the compared position, and absent iff it is known at neither |
| UsageStatistics.ConfidenceCanExceedOne | src/SwappedArgChecker.cpp:426-427 | a normalised table on which the confidence is 2 |
| UsageStatistics.Fit | src/SwappedArgChecker.cpp:437-450 | the accumulating loop computes the total weight of the morpheme at the position |
| UsageStatistics.FitnessIsLookup | src/SwappedArgChecker.cpp:437-450 | on unique rows the weighted sum is the point lookup, 0 when absent |
| Reference.FitnessIsRowSum | src/SwappedArgChecker.cpp:437-450 | on any table the fitness is the sum of all rows about the function, position and morpheme |
| SmallTables.OneRowEachIsNormalised | src/SwappedArgChecker.cpp:112-115 | functions and positions do not share a budget: one row for each function and position keeps the promises |
| UsageStatistics.FitnessInUnitRange | include/SwappedArgChecker.hpp:223-227 | the fitness lies in [0, 1] and reaches 1 iff a single row holds all the weight |
| UsageStatistics.FitnessCanBeOne | include/SwappedArgChecker.hpp:223-227 | a normalised table on which it does, outside the documented range |
| UsageStatistics.AtMostOneFit | src/SwappedArgChecker.cpp:445-449 | at each position at most one morpheme exceeds a threshold of one half or more |
| IdentifierSplitting.Split | src/IdentifierSplitting.cpp:30-64 | the scanning loop returns exactly the declared morphemes: lower-cased maximal segments cut at underscores and at lower-to-upper transitions |
| IdentifierSplitting.LowerWord | src/IdentifierSplitting.cpp:22-28 | the in-place transform lower-cases the word |
| IdentifierSplitting.WordsAreMorphemes | src/IdentifierSplitting.cpp:38-61 | the words in order of appearance have exactly the declared morphemes |
| IdentifierSplitting.MorphemesAreWellFormed | src/IdentifierSplitting.cpp:38-61 | every morpheme is nonempty without underscore and capital; there is none iff the identifier is all underscores |
| IdentifierSplitting.WordsConserveCharacters | src/IdentifierSplitting.cpp:38-61 | the words concatenated are the lower-cased identifier without its underscores |
| IdentifierSplitting.MorphemesOfJoin | src/IdentifierSplitting.cpp:43-49 | split(a + "_" + b) is the union of split(a) and split(b) |
| IdentifierSplitting.HumpSeparates | src/IdentifierSplitting.cpp:50-54 | where a letter of the lower-case alphabet meets one of the upper-case alphabet, the words of the two parts are the words of the whole |
| IdentifierSplitting.OtherwiseFused | src/IdentifierSplitting.cpp:38-61 | where any other two characters meet, neither an underscore, the last word of the first part goes on with the first word of the second |
| IdentifierSplitting.CharacterClasses | src/IdentifierSplitting.cpp:22-28 | the character classes are the two alphabets of 26 letters; lower-casing maps one to the other and nothing else |
| IdentifierSplitting.MorphemeSplitsToItself | src/IdentifierSplitting.cpp:38-61 | each morpheme splits to just itself |
| IdentifierSplitting.SnakeRoundTrip | src/IdentifierSplitting.cpp:43-49 | splitting a snake_case join with any underscores between, before and after gives back the list of words |
| IdentifierSplitting.CamelWords | src/IdentifierSplitting.cpp:50-54 | splitting a camelCase join of any lower-case words gives the words with each run of inner single-letter words fused with the word after it |
| IdentifierSplitting.CamelRoundTrip | src/IdentifierSplitting.cpp:50-54 | the list of words comes back iff no word but the first and the last has a single letter; the set of words, which the program returns, iff fusing keeps it, and for pairwise different words under the same condition as the list |
| IdentifierSplitting.SingleLetterHumpIsFused | src/IdentifierSplitting.cpp:50-54 | fooXBar has the morphemes foo and xbar |
| IdentifierSplitting.FusedWordCanRecur | src/IdentifierSplitting.cpp:50-54 | words that are all recovered as a set although an inner one is fused |
| IdentifierSplitting.SnakeAndCamelAgreeIff | src/IdentifierSplitting.cpp:43-54 | the two spellings of an identifier have the same morphemes iff fusing keeps the set of words, in particular without inner single-letter words |
| OrderedSets.SetDifference | src/SwappedArgChecker.cpp:370-379 | the merge of two sorted ranges yields the exact difference, still strictly sorted |
| OrderedSets.SortedIsUnique | src/SwappedArgChecker.cpp:484 | comparing sorted ranges with std::equal decides equality of the sets |
| OrderedSets.RemoveCopy | src/SwappedArgChecker.cpp:478-483 | everything but the given morpheme, still strictly sorted |

## Left out

- SQLite: opening, preparing, binding and stepping queries, invalid databases and temporary files; a loaded database is the table of its rows, and names contain no NUL characters.
- IEEE rounding, NaN and infinity, and zero weights: arithmetic is over reals with positive weights.
- Locale-dependent character classes and negative `char` values.
- `removeLowQualityMorphemes`, `similarity` and `anyAreSynonyms` beyond what they do now, an emptiness test and equality.
- The Clang plugin, the Python binding, the command-line driver and the tests.
- Builds without assertions, in which the faults above are undefined behaviour.
- Exchange: acting on a report is modelled on the call site, which the program leaves to the user; the program itself only reports.
