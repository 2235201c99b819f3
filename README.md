# Cost-comparison pipeline, modelled in Dafny

The modelled repository compares renovation costs. A catalog holds
**packages**, and each package holds **comparisons**: decision points such as
"doors" or "wall tiles". A comparison offers **options**. At most one option is
flagged `existing`, and that option is the baseline. Each option refers to
catalog **components**, each with a price and a category.

A comparison may **replace** comparisons of other packages. A customer's
**version** holds one **selection** per comparison, naming the chosen option.
The pipeline works in four steps:

1. It resolves which comparisons are replaced, and so which are still in force.
2. It pairs each in-force comparison's baseline with the selected option.
3. It prices each option in a city, weighting every component's price by a
   per-city, per-category multiplier.
4. It reports costs as 32-bit integers. The report has one line for the
   group, then each region followed by its cities.

The model has six files:

- `wrappers.dfy`: `Option` and `Result`.
- `database.dfy`: the catalog entities, the three lookups, and the sample
  catalog with its facts.
- `portfolio.dfy`: the multiplier table and the geography.
- `results.dfy`: the report line and its scope.
- `problem.dfy`: the pipeline. This has the replacement resolver, the
  selection matcher in two forms, the option pricer and the per-city report.
  One form of the matcher is the code as written, as a loop. The other is a
  per-comparison matcher that returns a `Result`.
- `problem_tests.dfy`: the unit tests of `src/problem.rs`, restated as lemmas
  over the sample catalog. It also holds the two inputs on which the
  matcher as written panics.

Modelling choices:

- Prices and multipliers are exact `real`s.
- Rust's `as i32` on a float is written out as `TruncateToI32`. It truncates
  toward zero and saturates at the bounds of `i32`.
- A panic of the source, an `[0]` on an empty vector, becomes the
  precondition `Matchable` of the method that models that code.
- The corrected matcher looks up each comparison through its own selection.
  It returns an `Err` naming the comparison when the version has no single
  selection for it, or when that selection names no option of the comparison.
  A comparison without a baseline is not an error: it is paired with `None`
  and adds nothing to the existing cost.
- Report costs have the type `Results.I32`, the integers of Rust's `i32`.
- The catalog filters recurse on the last element. Then the matcher
  loop's invariant over a prefix of the comparisons is a plain equation.

## Model

| member | source | states |
|---|---|---|
| Database.PackagesIn | src/database.rs:16-20 | the result holds exactly the catalog packages whose id is requested, and is no longer than the catalog |
| Database.PackagesInIsSubsequence | src/database.rs:16-20 | the selected packages keep their catalog order (a subsequence of the catalog) |
| Database.PackagesInCounts | src/database.rs:16-20 | each selected package occurs exactly as often as in the catalog; every unrequested one never |
| Database.PackagesInSameForSameCatalogIds | src/database.rs:16-20 | the order, repetition, and unknown entries of the requested ids do not change the result |
| Database.PackagesInKeepsIdsUnique | src/database.rs:16-20 | over a catalog with unique ids no package is returned twice, however often its id is requested |
| Database.GetPackages | src/database.rs:16-20 | get_packages returns exactly the sample packages whose id is requested |
| Database.ComponentsIn | src/database.rs:22-26 | the result holds exactly the catalog components whose id is requested |
| Database.ComponentsInIsSubsequence | src/database.rs:22-26 | the selected components keep their catalog order |
| Database.ComponentsInCounts | src/database.rs:22-26 | each selected component occurs exactly as often as in the catalog |
| Database.ComponentsInSameForSameCatalogIds | src/database.rs:22-26 | only which catalog ids are requested matters |
| Database.GetComponents | src/database.rs:22-26 | get_components returns exactly the sample components whose id is requested |
| Database.FindVersion | src/database.rs:28-32 | None iff no version has the id; otherwise the FIRST version with that id |
| Database.GetVersion | src/database.rs:28-32 | get_version finds a sample version with the requested id, or None when there is none |
| Database.SampleIdsUnique | src/database.rs:64-177 | package ids and component ids of the sample catalog are unique |
| Database.SampleBaselines | src/database.rs:64-166 | every sample comparison has at most one baseline; comparisons 1 and 2 have one, comparisons 3 and 4 none |
| Database.SampleVersionFound | src/database.rs:34-62 | version v1 is found by its id |
| Database.SampleVersionComplete | src/database.rs:34-62 | v1 has exactly one selection for each of the four comparisons |
| Database.SamplePricesNonNegative | src/database.rs:168-177 | every sample component price is non-negative |
| Portfolio.ComponentsInCities | src/portfolio.rs:7-24 | the multiplier table of either category has an entry for every city, and every entry is positive |
| Portfolio.Multiplier | src/problem.rs:62 | the lookup that is unwrapped never misses and yields a positive multiplier |
| Portfolio.DoorMultipliers | src/portfolio.rs:9-15 | doors: 2.0 in Stockholm, 1.5 in every other city |
| Portfolio.WallTileMultipliers | src/portfolio.rs:16-22 | wall tiles: 7.2, 6.5, 6.3, 5.6, 5.5 in Stockholm, Malmo, Berlin, Hamburg, Munich |
| Portfolio.Cities | src/portfolio.rs:34-46 | each region has at least one city, and none twice |
| Portfolio.Regions | src/portfolio.rs:48-55 | every region is enumerated exactly once |
| Portfolio.RegionOrder | src/portfolio.rs:34-55 | regions in order Scandinavia, Europe; Scandinavia is Stockholm, Malmo; Europe is Berlin, Hamburg, Munich |
| Portfolio.CitiesPartitioned | src/portfolio.rs:34-46 | every city lies in exactly one of the two regions |
| Problem.Comparisons | src/problem.rs:11-13 | the flattened comparisons are exactly those of some given package |
| Problem.ReplacedBy | src/problem.rs:14-15 | an id is collected iff some comparison lists it in `replacing` |
| Problem.ReplacedComparisonIds | src/problem.rs:10-16 | an id is replaced iff some comparison of some given package lists it; one hop, no transitive closure |
| Problem.InForce | src/problem.rs:28-32 | the kept comparisons are exactly the flattened ones whose id is not replaced, and there are no more of them |
| Problem.InForceCounts | src/problem.rs:28-32 | each in-force comparison occurs exactly as often as among the flattened comparisons; a replaced one never |
| Problem.InForceIsSubsequence | src/problem.rs:28-32 | the in-force comparisons keep their package-by-package order |
| Problem.InForceAppend | src/problem.rs:28-32 | filtering a concatenation filters each part: one package's comparisons do not affect another's |
| Problem.FirstExisting | src/problem.rs:33 | None iff no option is a baseline; otherwise a baseline option of the comparison |
| Problem.FirstExistingIsFirst | src/problem.rs:33 | the baseline found is the first one: no option before it is a baseline |
| Problem.FirstWithId | src/problem.rs:38 | None iff no option has the id; otherwise an option of the comparison with that id |
| Problem.FirstWithIdIsFirst | src/problem.rs:38 | the option found is the first with that id |
| Problem.MatchableAt | src/problem.rs:32-38 | for an in-force comparison, none of the three `[0]` indexes panics when the input is Matchable |
| Problem.GetExistingAndSelectedOptions | src/problem.rs:22-44 | one pair per in-force comparison, in order: Some(its first baseline) and its first option named by the version's FIRST selection |
| Problem.SelectionFor | src/problem.rs:77-78 | Some iff the version has exactly one selection for the comparison; that selection is for it |
| Problem.MatchEach | src/problem.rs:18-21 | Ok iff every comparison is resolved by its own selection; then one pair per comparison in order (its baseline if any, its selected option); otherwise the error names an unresolvable comparison |
| Problem.MatchSelections | src/problem.rs:18-44 | corrected matcher: Ok iff every in-force comparison is resolvable; then its pairs, in order, as MatchEach states |
| Problem.WeightedSum | src/problem.rs:59-63 | the weighted sum of non-negative prices is non-negative |
| Problem.ComputeCostsForOptionInCity | src/problem.rs:49-64 | an option's cost in a city is non-negative |
| Problem.NoRefsCostNothing | src/problem.rs:49-64 | an option without component references costs 0 |
| Problem.CostDependsOnReferencedComponentsOnly | src/problem.rs:53-59 | two options referring to the same catalog components cost the same in every city, whatever the order, repetition or unknown references |
| Problem.RefIdsMembership | src/problem.rs:53-57 | an id is among the option's reference ids iff the option holds a reference to it |
| Problem.TruncateToI32 | src/problem.rs:80 | the result is an i32; within range it is the integer part toward zero; outside it saturates |
| Problem.TruncationIsFloor | src/problem.rs:80 | for a non-negative cost within range, truncation is the floor |
| Problem.ExistingCostInCity | src/problem.rs:66-80 | the summed baseline cost of the pairs is non-negative |
| Problem.ExistingCostSnoc | src/problem.rs:66-80 | appending a pair adds its baseline's cost, or nothing when it has no baseline |
| Problem.NoBaselinesCostNothing | src/problem.rs:66-80 | pairs none of which has a baseline have existing cost 0 |
| Problem.SelectedCostInCity | src/problem.rs:66-80 | the summed selected cost of the pairs is non-negative |
| Problem.SelectedCostSnoc | src/problem.rs:66-80 | appending a pair adds its selected option's cost |
| Problem.CityLine | src/problem.rs:66-80 | the line's scope is the city, and both costs are the truncations (floors within range) of the summed costs |
| Problem.ReportScopes | src/problem.rs:66-76 | the report starts with the group line |
| Problem.ReportOrder | src/problem.rs:66-76 | scope order is group, Scandinavia, Stockholm, Malmo, Europe, Berlin, Hamburg, Munich |
| Problem.CityLines | src/problem.rs:66-80 | one line per city, in report order; line k is the CityLine of the k-th report city, so its costs are the truncated summed costs of the pairs in that city |
| Problem.CalculateCityLines | src/problem.rs:82-97 | Ok iff the corrected matcher succeeds on the requested packages and their replaced ids; then exactly the CityLines of the matched pairs; otherwise the matcher's error |
| ProblemSamples.ReplacedSamples | src/problem.rs:110-126 | package 1 replaces nothing; package 2 replaces exactly comparison-1 |
| ProblemSamples.ReplacedByAllPackages | src/database.rs:135-161 | all three packages replace exactly comparison-1 and comparison-2 |
| ProblemSamples.InForceOfAllPackages | src/problem.rs:28-32 | with all packages, only comparison-3 and comparison-4 stay in force |
| ProblemSamples.MatcherSample | src/problem.rs:128-151 | package 1, v1 and comparison-2 replaced: the matcher as written can run, and its only possible result is [(Some(door-1), door-2)] |
| ProblemSamples.PricerSamples | src/problem.rs:153-181 | door-1 costs 150 in Berlin; tiles-2 costs 115.2 in Stockholm |
| ProblemSamples.AsWrittenPanicsOnPackage1 | src/problem.rs:183-204 | package 1 with v1, as wired (nothing replaced), is not Matchable: the matcher as written panics |
| ProblemSamples.AsWrittenPanicsOnAllPackages | src/problem.rs:206-229 | all packages with v1 are not Matchable: comparison-3 has no baseline |
| ProblemSamples.NotMatchableWithoutBaseline | src/problem.rs:33 | one in-force comparison without a baseline makes the input unmatchable |
| ProblemSamples.Package1Pairs | src/problem.rs:183-204 | the corrected matcher pairs package 1 with v1 as [(door-1, door-2), (tiles-1, tiles-1)] |
| ProblemSamples.AllPackagesPairs | src/problem.rs:206-229 | the corrected matcher pairs all packages with v1 as [(none, door-3), (none, tiles-2)] |
| ProblemSamples.Package1Report | src/problem.rs:195-200 | the package-1 city lines are Stockholm 308/328, Malmo 247/262, Berlin 244/259, Hamburg 234/249, Munich 232/247 |
| ProblemSamples.AllPackagesReport | src/problem.rs:220-225 | the all-packages city lines are Stockholm 0/475, Malmo 0/374, Berlin 0/370, Hamburg 0/359, Munich 0/358 |

## Left out

- Titles of packages, comparisons and options are left out: no operation reads them.
- Region and group report lines are left out. The tests expect them at src/problem.rs:193-194, 197, 218-219 and 222. Those values match truncated sums weighted by `weight_to_region` / `weight_to_group` (src/portfolio.rs:67-87). No code computes them, because the summary function is a stub. The model covers the line order (Problem.ReportOrder) and the per-city lines. Unweighted sums of the city lines would not give these values (for package 1, the Scandinavia line would be 555/590 rather than 256/272).
- The city weights are left out, since they are used only by the rollups above.
- f32 rounding is left out: costs are exact reals. Within the sample, every f32 result truncates to the same integer as the exact real.
- The `println!` of the pairs at src/problem.rs:94 is left out, since it is I/O.
- The stub's empty return value at src/problem.rs:96 is not modelled. Problem.CalculateCityLines models the documented intent for city lines instead.
- Rust borrowing, `lazy_static`, and hashing of the id sets are left out. Sets are Dafny `set`s.
- Problem.GetExistingAndSelectedOptions: the panics of its three `[0]` indexes are its precondition `Matchable`, not a modelled outcome. ProblemSamples.AsWrittenPanicsOnPackage1 and ProblemSamples.AsWrittenPanicsOnAllPackages show where that precondition fails.
- Database.GetVersion: its ensures does not say which version is returned among several with the same id. Database.FindVersion states that it is the first.
- Portfolio.CitiesPartitioned: states that each city lies in one region; that no city appears twice within a region is stated by Portfolio.Cities.

## Findings

| source | as written | input that shows it | evidently intended | confidence | as-written member | corrected member |
|---|---|---|---|---|---|---|
| src/problem.rs:34-38 | the selected option of EVERY comparison is looked up with the option id of the version's FIRST selection | packages [package-1], version v1, nothing replaced (as src/problem.rs:88-92 wires it): comparison-2 has no option `door-2`, so the `[0]` at line 38 panics | each comparison is looked up through its own selection (the version holds one per comparison, src/problem.rs:77-78) | not executed | ProblemSamples.AsWrittenPanicsOnPackage1 | ProblemSamples.Package1Report |
| src/problem.rs:33,39 | the baseline is taken as `[0]` of the existing options and always wrapped in `Some` | packages [package-1, package-2, package-3], version v1: comparisons 1 and 2 are replaced, and comparison-3 has no existing option, so line 33 panics | a comparison without a baseline pairs `None` with its selection and adds 0 to the existing cost (the test at src/problem.rs:218-225 expects 0) | not executed | ProblemSamples.AsWrittenPanicsOnAllPackages | ProblemSamples.AllPackagesReport |
