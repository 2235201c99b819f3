/**
 * The pipeline on the sample catalog: the expectations of the unit tests of
 * src/problem.rs, and the two places where the matcher as written panics on
 * inputs those tests use. Each lemma establishes one small fact from the
 * ones before it.
 */
module ProblemSamples {
  import opened Wrappers
  import opened Database
  import opened Portfolio
  import opened Problem
  import Results

  const P1 := PackageId("package-1")
  const P2 := PackageId("package-2")
  const P3 := PackageId("package-3")

  lemma SampleIdsDistinct()
    ensures P1 != P2 && P1 != P3 && P2 != P3
    ensures Comparison1.id != Comparison2.id && Comparison1.id != Comparison3.id && Comparison1.id != Comparison4.id
    ensures Comparison2.id != Comparison3.id && Comparison2.id != Comparison4.id && Comparison3.id != Comparison4.id
  {
    assert P1.name[8] == '1' && P2.name[8] == '2' && P3.name[8] == '3';
    assert Comparison1.id.name[11] == '1' && Comparison2.id.name[11] == '2';
    assert Comparison3.id.name[11] == '3' && Comparison4.id.name[11] == '4';
  }

  // ---------------------------------------------------------------------------
  // Catalog lookups

  /** The package filter over the sample catalog, unfolded. */
  lemma PackagesFilter(ids: seq<PackageId>)
    ensures GetPackages(ids)
         == (if P1 in ids then [Package1] else []) + (if P2 in ids then [Package2] else [])
            + (if P3 in ids then [Package3] else [])
  {
    assert Package1.id == P1 && Package2.id == P2 && Package3.id == P3;
    PackagesInSnoc([], Package1, ids);
    PackagesInSnoc([Package1], Package2, ids);
    PackagesInSnoc([Package1, Package2], Package3, ids);
    assert PACKAGES == [Package1, Package2] + [Package3];
    assert [Package1, Package2] == [Package1] + [Package2];
    assert [Package1] == [] + [Package1];
  }

  lemma Package1Found()
    ensures GetPackages([P1]) == [Package1]
  {
    SampleIdsDistinct();
    PackagesFilter([P1]);
    assert P2 !in [P1] && P3 !in [P1];
  }

  lemma Package2Found()
    ensures GetPackages([P2]) == [Package2]
  {
    SampleIdsDistinct();
    PackagesFilter([P2]);
    assert P1 !in [P2] && P3 !in [P2];
  }

  lemma AllPackagesFound()
    ensures GetPackages([P1, P2, P3]) == PACKAGES
  {
    PackagesFilter([P1, P2, P3]);
  }

  /** A catalog filter none of whose entries is asked for is empty. */
  lemma {:induction false} ComponentsInNone(catalog: seq<Component>, ids: seq<ComponentId>)
    requires forall j :: 0 <= j < |catalog| ==> catalog[j].id !in ids
    ensures ComponentsIn(catalog, ids) == []
  {
    if catalog != [] {
      var init := catalog[..|catalog| - 1];
      assert catalog == init + [catalog[|catalog| - 1]];
      ComponentsInNone(init, ids);
      ComponentsInSnoc(init, catalog[|catalog| - 1], ids);
    }
  }

  /** A catalog filter exactly one of whose entries, entry `i`, is asked for holds that entry alone. */
  lemma {:induction false} ComponentsInSingle(catalog: seq<Component>, ids: seq<ComponentId>, i: nat)
    requires i < |catalog| && catalog[i].id in ids
    requires forall j :: 0 <= j < |catalog| && j != i ==> catalog[j].id !in ids
    ensures ComponentsIn(catalog, ids) == [catalog[i]]
    decreases |catalog|
  {
    var init, last := catalog[..|catalog| - 1], catalog[|catalog| - 1];
    assert catalog == init + [last];
    ComponentsInSnoc(init, last, ids);
    if i == |catalog| - 1 {
      ComponentsInNone(init, ids);
    } else {
      ComponentsInSingle(init, ids, i);
    }
  }

  /** An option whose one reference names catalog entry `i` resolves to that entry alone. */
  lemma SingleComponentFound(o: Opt, i: nat)
    requires i < |COMPONENTS| && o.componentRefs == [ComponentRef(COMPONENTS[i].id)]
    ensures GetComponents(RefIds(o)) == [COMPONENTS[i]]
  {
    SampleIdsUnique();
    assert RefIds(o) == [COMPONENTS[i].id];
    ComponentsInSingle(COMPONENTS, RefIds(o), i);
  }

  lemma Tiles2ComponentsFound()
    ensures GetComponents(RefIds(Tiles2)) == [COMPONENTS[4], COMPONENTS[5]]
  {
    SampleIdsUnique();
    var ids := RefIds(Tiles2);
    assert ids == [COMPONENTS[4].id, COMPONENTS[5].id];
    var init := COMPONENTS[..5];
    assert COMPONENTS == init + [COMPONENTS[5]];
    ComponentsInSnoc(init, COMPONENTS[5], ids);
    ComponentsInSingle(init, ids, 4);
  }

  // ---------------------------------------------------------------------------
  // Option pricer

  lemma WeightedSumSnoc(cs: seq<Component>, c: Component, city: City)
    ensures WeightedSum(cs + [c], city) == WeightedSum(cs, city) + Multiplier(c.category, city) * c.price
  {
    assert (cs + [c])[..|cs|] == cs;
  }

  lemma WeightedSumSingle(c: Component, city: City)
    ensures WeightedSum([c], city) == Multiplier(c.category, city) * c.price
  {
    WeightedSumSnoc([], c, city);
    assert [c] == [] + [c];
  }


  lemma Tiles2Cost(city: City)
    ensures ComputeCostsForOptionInCity(Tiles2, city) == Multiplier(WallTile, city) * 16.0
  {
    Tiles2ComponentsFound();
    var c4, c5 := COMPONENTS[4], COMPONENTS[5];
    WeightedSumSnoc([], c4, city);
    WeightedSumSnoc([c4], c5, city);
    assert [c4, c5] == [c4] + [c5] && [c4] == [] + [c4];
  }

  lemma Door1Cost(city: City)
    ensures ComputeCostsForOptionInCity(Door1, city) == Multiplier(Door, city) * 100.0
  {
    SingleComponentFound(Door1, 0);
    WeightedSumSingle(COMPONENTS[0], city);
  }

  lemma Door2Cost(city: City)
    ensures ComputeCostsForOptionInCity(Door2, city) == Multiplier(Door, city) * 110.0
  {
    SingleComponentFound(Door2, 1);
    WeightedSumSingle(COMPONENTS[1], city);
  }

  lemma Door3Cost(city: City)
    ensures ComputeCostsForOptionInCity(Door3, city) == Multiplier(Door, city) * 180.0
  {
    SingleComponentFound(Door3, 2);
    WeightedSumSingle(COMPONENTS[2], city);
  }

  lemma Tiles1Cost(city: City)
    ensures ComputeCostsForOptionInCity(Tiles1, city) == Multiplier(WallTile, city) * 15.0
  {
    SingleComponentFound(Tiles1, 3);
    WeightedSumSingle(COMPONENTS[3], city);
  }

  /** The white door in Berlin costs 150; the mosaic tiles in Stockholm cost 115.2. */
  lemma PricerSamples()
    ensures ComputeCostsForOptionInCity(Door1, Berlin) == 150.0
    ensures ComputeCostsForOptionInCity(Tiles2, Stockholm) == 115.2
  {
    Door1Cost(Berlin);
    DoorMultipliers();
    Tiles2Cost(Stockholm);
    WallTileMultipliers();
  }

  // ---------------------------------------------------------------------------
  // Replacement resolver

  lemma ComparisonsOfSamples()
    ensures Comparisons([Package1]) == [Comparison1, Comparison2]
    ensures Comparisons([Package2]) == [Comparison3]
    ensures Comparisons(PACKAGES) == [Comparison1, Comparison2, Comparison3, Comparison4]
  {
    assert Comparisons([Package3]) == [Comparison4] by {
      assert [Package3][1..] == [];
    }
    assert Comparisons([Package2, Package3]) == [Comparison3, Comparison4] by {
      assert [Package2, Package3][1..] == [Package3];
    }
    assert PACKAGES[1..] == [Package2, Package3];
  }

  lemma ReplacedByAllComparisons()
    ensures ReplacedBy([Comparison1, Comparison2, Comparison3, Comparison4]) == {Comparison1.id, Comparison2.id}
  {
    var cs := [Comparison1, Comparison2, Comparison3, Comparison4];
    assert cs[1..] == [Comparison2, Comparison3, Comparison4];
    assert cs[1..][1..] == [Comparison3, Comparison4];
    assert cs[1..][1..][1..] == [Comparison4];
    assert cs[1..][1..][1..][1..] == [];
  }

  /** Package 1 replaces nothing; package 2 replaces comparison 1. */
  lemma ReplacedSamples()
    ensures ReplacedComparisonIds(GetPackages([P1])) == {}
    ensures ReplacedComparisonIds(GetPackages([P2])) == {Comparison1.id}
  {
    Package1Found();
    Package2Found();
    ComparisonsOfSamples();
  }

  lemma ReplacedByAllPackages()
    ensures ReplacedComparisonIds(GetPackages([P1, P2, P3])) == {Comparison1.id, Comparison2.id}
  {
    AllPackagesFound();
    ComparisonsOfSamples();
    ReplacedByAllComparisons();
  }

  /** The in-force filter over two comparisons, unfolded. */
  lemma InForcePair(a: Comparison, b: Comparison, replaced: set<ComparisonId>)
    ensures InForce([a, b], replaced)
         == (if a.id in replaced then [] else [a]) + (if b.id in replaced then [] else [b])
  {
    InForceSnoc([], a, replaced);
    InForceSnoc([a], b, replaced);
    assert [a, b] == [a] + [b] && [a] == [] + [a];
  }


  lemma InForceOfPackage1()
    ensures InForce(Comparisons(GetPackages([P1])), {}) == [Comparison1, Comparison2]
  {
    Package1Found();
    ComparisonsOfSamples();
    InForcePair(Comparison1, Comparison2, {});
  }

  /** The in-force filter over four comparisons of which the first two are replaced. */
  lemma InForceKeepsLastTwo(a: Comparison, b: Comparison, c: Comparison, d: Comparison, replaced: set<ComparisonId>)
    requires a.id in replaced && b.id in replaced && c.id !in replaced && d.id !in replaced
    ensures InForce([a, b, c, d], replaced) == [c, d]
  {
    InForcePair(a, b, replaced);
    InForcePair(c, d, replaced);
    InForceAppend([a, b], [c, d], replaced);
    assert [a, b] + [c, d] == [a, b, c, d];
  }

  lemma InForceOfAllComparisons()
    ensures InForce([Comparison1, Comparison2, Comparison3, Comparison4], {Comparison1.id, Comparison2.id})
         == [Comparison3, Comparison4]
  {
    SampleIdsDistinct();
    InForceKeepsLastTwo(Comparison1, Comparison2, Comparison3, Comparison4, {Comparison1.id, Comparison2.id});
  }

  lemma InForceOfAllPackages()
    ensures InForce(Comparisons(GetPackages([P1, P2, P3])), {Comparison1.id, Comparison2.id}) == [Comparison3, Comparison4]
  {
    AllPackagesFound();
    ComparisonsOfSamples();
    InForceOfAllComparisons();
  }

  // ---------------------------------------------------------------------------
  // Selection matcher as written

  lemma Door1IsNotDoor2()
    ensures Door1.id != Door2.id && Tiles1.id != Door2.id
  {
    assert Door1.id.name[5] != Door2.id.name[5];
    assert Tiles1.id.name[0] != Door2.id.name[0];
  }

  /** The baseline and selected-option lookups the samples need. */
  lemma OptionLookups()
    ensures FirstExisting(Comparison1.options) == Some(Door1)
    ensures FirstWithId(Comparison1.options, Door2.id) == Some(Door2)
    ensures FirstExisting(Comparison2.options) == Some(Tiles1)
    ensures FirstWithId(Comparison2.options, Tiles1.id) == Some(Tiles1)
    ensures FirstWithId(Comparison2.options, Door2.id) == None
    ensures FirstExisting(Comparison3.options) == None
    ensures FirstWithId(Comparison3.options, Door3.id) == Some(Door3)
    ensures FirstExisting(Comparison4.options) == None
    ensures FirstWithId(Comparison4.options, Tiles2.id) == Some(Tiles2)
  {
    Door1IsNotDoor2();
    assert FirstWithId([Door2], Door2.id) == Some(Door2);
    assert [Door1, Door2][1..] == [Door2];
    assert [Tiles1][1..] == [] && [Door3][1..] == [] && [Tiles2][1..] == [];
  }

  lemma InForceOfPackage1WithoutComparison2()
    ensures InForce(Comparisons(GetPackages([P1])), {Comparison2.id}) == [Comparison1]
  {
    Package1Found();
    ComparisonsOfSamples();
    SampleIdsDistinct();
    InForcePair(Comparison1, Comparison2, {Comparison2.id});
  }

  /** With comparison 2 replaced, package 1 and v1 give exactly the pair (door-1, door-2). */
  lemma MatcherSample(result: seq<(Option<Opt>, Opt)>)
    ensures Matchable(GetPackages([P1]), {Comparison2.id}, V1)
    ensures PairsAsWritten(InForce(Comparisons(GetPackages([P1])), {Comparison2.id}), V1, result)
      ==> result == [(Some(Door1), Door2)]
  {
    InForceOfPackage1WithoutComparison2();
    OptionLookups();
    assert V1.selections[0].optionId == Door2.id;
    MatchableSingle(GetPackages([P1]), {Comparison2.id}, V1, Comparison1, Door1, Door2, result);
  }

  /** The matcher as written over a single in-force comparison whose lookups both succeed. */
  lemma MatchableSingle(packages: seq<Package>, replaced: set<ComparisonId>, version: Version, c: Comparison,
                        baseline: Opt, selected: Opt, result: seq<(Option<Opt>, Opt)>)
    requires InForce(Comparisons(packages), replaced) == [c]
    requires FirstExisting(c.options) == Some(baseline) && version.selections != []
    requires FirstWithId(c.options, version.selections[0].optionId) == Some(selected)
    ensures Matchable(packages, replaced, version)
    ensures PairsAsWritten([c], version, result) ==> result == [(Some(baseline), selected)]
  {
    if PairsAsWritten([c], version, result) {
      assert result == [result[0]];
    }
  }

  /**
   * Package 1 with v1, as the pipeline wires it (nothing replaced): comparison 2
   * has no option named by v1's first selection, door-2, so the matcher as
   * written panics where the report test expects Stockholm (308, 328).
   */
  lemma AsWrittenPanicsOnPackage1()
    ensures ReplacedComparisonIds(GetPackages([P1])) == {}
    ensures !Matchable(GetPackages([P1]), ReplacedComparisonIds(GetPackages([P1])), V1)
  {
    ReplacedSamples();
    InForceOfPackage1();
    OptionLookups();
    assert V1.selections[0].optionId == Door2.id;
    assert Comparison2 in InForce(Comparisons(GetPackages([P1])), {});
  }

  /**
   * All three packages with v1: comparisons 1 and 2 are replaced, and the
   * remaining comparison 3 has no baseline option, so the matcher as written
   * panics where the report test expects every existing cost to be 0.
   */
  lemma AsWrittenPanicsOnAllPackages()
    ensures !Matchable(GetPackages([P1, P2, P3]), ReplacedComparisonIds(GetPackages([P1, P2, P3])), V1)
  {
    ReplacedByAllPackages();
    InForceOfAllPackages();
    OptionLookups();
    var packages := GetPackages([P1, P2, P3]);
    NotMatchableWithoutBaseline(packages, ReplacedComparisonIds(packages), V1, Comparison3);
  }

  /** One in-force comparison without a baseline option is enough for the matcher as written to panic. */
  lemma NotMatchableWithoutBaseline(packages: seq<Package>, replaced: set<ComparisonId>, version: Version, c: Comparison)
    requires c in InForce(Comparisons(packages), replaced) && FirstExisting(c.options).None?
    ensures !Matchable(packages, replaced, version)
  {
  }

  // ---------------------------------------------------------------------------
  // Selection matcher per comparison

  /** Each selection of v1 is the one selection for its comparison. */
  lemma V1SelectionAt(k: nat)
    requires k < 4
    ensures SelectionFor(V1.selections, V1.selections[k].comparisonId) == Some(V1.selections[k])
  {
    SampleVersionComplete();
    var sels := V1.selections;
    forall j | 0 <= j < 4 && j != k ensures sels[j].comparisonId != sels[k].comparisonId {
      assert sels[j].comparisonId.name[11] != sels[k].comparisonId.name[11];
    }
  }

  /** The matcher over two comparisons each of which its own selection resolves. */
  lemma MatchEachPair(a: Comparison, b: Comparison, version: Version, sa: Selection, sb: Selection, oa: Opt, ob: Opt)
    requires SelectionFor(version.selections, a.id) == Some(sa) && FirstWithId(a.options, sa.optionId) == Some(oa)
    requires SelectionFor(version.selections, b.id) == Some(sb) && FirstWithId(b.options, sb.optionId) == Some(ob)
    ensures MatchEach([a, b], version) == Ok([(FirstExisting(a.options), oa), (FirstExisting(b.options), ob)])
  {
    MatchEachSingle(b, version, sb, ob);
    assert [a, b][1..] == [b];
    assert [(FirstExisting(a.options), oa)] + [(FirstExisting(b.options), ob)]
        == [(FirstExisting(a.options), oa), (FirstExisting(b.options), ob)];
  }

  lemma MatchEachSingle(b: Comparison, version: Version, sb: Selection, ob: Opt)
    requires SelectionFor(version.selections, b.id) == Some(sb) && FirstWithId(b.options, sb.optionId) == Some(ob)
    ensures MatchEach([b], version) == Ok([(FirstExisting(b.options), ob)])
  {
    var tail := [b][1..];
    assert tail == [];
    assert MatchEach(tail, version) == Ok([]);
    assert [(FirstExisting(b.options), ob)] + [] == [(FirstExisting(b.options), ob)];
  }

  lemma MatchPackage1Comparisons()
    ensures MatchEach([Comparison1, Comparison2], V1) == Ok([(Some(Door1), Door2), (Some(Tiles1), Tiles1)])
  {
    V1SelectionAt(0);
    V1SelectionAt(1);
    assert V1.selections[0].comparisonId == Comparison1.id && V1.selections[1].comparisonId == Comparison2.id;
    OptionLookups();
    MatchEachPair(Comparison1, Comparison2, V1, V1.selections[0], V1.selections[1], Door2, Tiles1);
  }

  lemma MatchRemainingComparisons()
    ensures MatchEach([Comparison3, Comparison4], V1) == Ok([(None, Door3), (None, Tiles2)])
  {
    V1SelectionAt(2);
    V1SelectionAt(3);
    assert V1.selections[2].comparisonId == Comparison3.id && V1.selections[3].comparisonId == Comparison4.id;
    OptionLookups();
    MatchEachPair(Comparison3, Comparison4, V1, V1.selections[2], V1.selections[3], Door3, Tiles2);
  }

  lemma Package1Pairs()
    ensures MatchSelections(GetPackages([P1]), ReplacedComparisonIds(GetPackages([P1])), V1)
         == Ok([(Some(Door1), Door2), (Some(Tiles1), Tiles1)])
  {
    ReplacedSamples();
    InForceOfPackage1();
    MatchPackage1Comparisons();
  }

  lemma AllPackagesPairs()
    ensures MatchSelections(GetPackages([P1, P2, P3]), ReplacedComparisonIds(GetPackages([P1, P2, P3])), V1)
         == Ok([(None, Door3), (None, Tiles2)])
  {
    ReplacedByAllPackages();
    InForceOfAllPackages();
    MatchRemainingComparisons();
  }

  // ---------------------------------------------------------------------------
  // Per-city report lines

  lemma Package1Costs(city: City)
    ensures ExistingCostInCity([(Some(Door1), Door2), (Some(Tiles1), Tiles1)], city)
         == Multiplier(Door, city) * 100.0 + Multiplier(WallTile, city) * 15.0
    ensures SelectedCostInCity([(Some(Door1), Door2), (Some(Tiles1), Tiles1)], city)
         == Multiplier(Door, city) * 110.0 + Multiplier(WallTile, city) * 15.0
  {
    var a, b := (Some(Door1), Door2), (Some(Tiles1), Tiles1);
    assert [a, b] == [a] + [b] && [a] == [] + [a];
    ExistingCostSnoc([], a, city);
    ExistingCostSnoc([a], b, city);
    SelectedCostSnoc([], a, city);
    SelectedCostSnoc([a], b, city);
    Door1Cost(city);
    Door2Cost(city);
    Tiles1Cost(city);
  }

  lemma AllPackagesCosts(city: City)
    ensures ExistingCostInCity([(None, Door3), (None, Tiles2)], city) == 0.0
    ensures SelectedCostInCity([(None, Door3), (None, Tiles2)], city)
         == Multiplier(Door, city) * 180.0 + Multiplier(WallTile, city) * 16.0
  {
    var a: (Option<Opt>, Opt) := (None, Door3);
    var b: (Option<Opt>, Opt) := (None, Tiles2);
    assert [a, b] == [a] + [b] && [a] == [] + [a];
    NoBaselinesCostNothing([a, b], city);
    SelectedCostSnoc([], a, city);
    SelectedCostSnoc([a], b, city);
    Door3Cost(city);
    Tiles2Cost(city);
  }

  /** The line for `city` with the given truncated costs. */
  function Line(city: City, existing: Results.I32, selected: Results.I32): Results.CostCalculationSummaryLine {
    Results.CostCalculationSummaryLine(Results.Scope.City(city), existing, selected)
  }

  lemma Package1CityLine(city: City, existing: Results.I32, selected: Results.I32)
    requires existing == TruncateToI32(Multiplier(Door, city) * 100.0 + Multiplier(WallTile, city) * 15.0)
    requires selected == TruncateToI32(Multiplier(Door, city) * 110.0 + Multiplier(WallTile, city) * 15.0)
    ensures CityLine([(Some(Door1), Door2), (Some(Tiles1), Tiles1)], city) == Line(city, existing, selected)
  {
    Package1Costs(city);
  }

  lemma AllPackagesCityLine(city: City, selected: Results.I32)
    requires selected == TruncateToI32(Multiplier(Door, city) * 180.0 + Multiplier(WallTile, city) * 16.0)
    ensures CityLine([(None, Door3), (None, Tiles2)], city) == Line(city, 0, selected)
  {
    AllPackagesCosts(city);
  }

  /** The report's city lines, given the line of each city. */
  lemma CityLinesAre(pairs: seq<(Option<Opt>, Opt)>, stockholm: Results.CostCalculationSummaryLine,
                     malmo: Results.CostCalculationSummaryLine, berlin: Results.CostCalculationSummaryLine,
                     hamburg: Results.CostCalculationSummaryLine, munich: Results.CostCalculationSummaryLine)
    requires CityLine(pairs, Stockholm) == stockholm && CityLine(pairs, Malmo) == malmo
    requires CityLine(pairs, Berlin) == berlin && CityLine(pairs, Hamburg) == hamburg && CityLine(pairs, Munich) == munich
    ensures CityLines(pairs) == [stockholm, malmo, berlin, hamburg, munich]
  {
    ReportOrder();
  }

  /** The package-1 pairs in the Scandinavian cities. */
  lemma Package1ScandinaviaLines()
    ensures CityLine([(Some(Door1), Door2), (Some(Tiles1), Tiles1)], Stockholm) == Line(Stockholm, 308, 328)
    ensures CityLine([(Some(Door1), Door2), (Some(Tiles1), Tiles1)], Malmo) == Line(Malmo, 247, 262)
  {
    DoorMultipliers();
    WallTileMultipliers();
    Package1CityLine(Stockholm, 308, 328);
    Package1CityLine(Malmo, 247, 262);
  }

  /** The package-1 pairs in the European cities. */
  lemma Package1EuropeLines()
    ensures CityLine([(Some(Door1), Door2), (Some(Tiles1), Tiles1)], Berlin) == Line(Berlin, 244, 259)
    ensures CityLine([(Some(Door1), Door2), (Some(Tiles1), Tiles1)], Hamburg) == Line(Hamburg, 234, 249)
    ensures CityLine([(Some(Door1), Door2), (Some(Tiles1), Tiles1)], Munich) == Line(Munich, 232, 247)
  {
    DoorMultipliers();
    WallTileMultipliers();
    Package1CityLine(Berlin, 244, 259);
    Package1CityLine(Hamburg, 234, 249);
    Package1CityLine(Munich, 232, 247);
  }

  /** The package-1 pairs give the city lines the report test expects. */
  lemma Package1Lines(pairs: seq<(Option<Opt>, Opt)>)
    requires pairs == [(Some(Door1), Door2), (Some(Tiles1), Tiles1)]
    ensures CityLines(pairs) == [
      Line(Stockholm, 308, 328), Line(Malmo, 247, 262),
      Line(Berlin, 244, 259), Line(Hamburg, 234, 249), Line(Munich, 232, 247)]
  {
    Package1ScandinaviaLines();
    Package1EuropeLines();
    CityLinesAre(pairs, Line(Stockholm, 308, 328), Line(Malmo, 247, 262),
      Line(Berlin, 244, 259), Line(Hamburg, 234, 249), Line(Munich, 232, 247));
  }

  /** The all-packages pairs in the Scandinavian cities. */
  lemma AllPackagesScandinaviaLines()
    ensures CityLine([(None, Door3), (None, Tiles2)], Stockholm) == Line(Stockholm, 0, 475)
    ensures CityLine([(None, Door3), (None, Tiles2)], Malmo) == Line(Malmo, 0, 374)
  {
    DoorMultipliers();
    WallTileMultipliers();
    AllPackagesCityLine(Stockholm, 475);
    AllPackagesCityLine(Malmo, 374);
  }

  /** The all-packages pairs in the European cities. */
  lemma AllPackagesEuropeLines()
    ensures CityLine([(None, Door3), (None, Tiles2)], Berlin) == Line(Berlin, 0, 370)
    ensures CityLine([(None, Door3), (None, Tiles2)], Hamburg) == Line(Hamburg, 0, 359)
    ensures CityLine([(None, Door3), (None, Tiles2)], Munich) == Line(Munich, 0, 358)
  {
    DoorMultipliers();
    WallTileMultipliers();
    AllPackagesCityLine(Berlin, 370);
    AllPackagesCityLine(Hamburg, 359);
    AllPackagesCityLine(Munich, 358);
  }

  /** The all-packages pairs: no baseline anywhere, and the selected costs the report test expects. */
  lemma AllPackagesLines(pairs: seq<(Option<Opt>, Opt)>)
    requires pairs == [(None, Door3), (None, Tiles2)]
    ensures CityLines(pairs) == [
      Line(Stockholm, 0, 475), Line(Malmo, 0, 374),
      Line(Berlin, 0, 370), Line(Hamburg, 0, 359), Line(Munich, 0, 358)]
  {
    AllPackagesScandinaviaLines();
    AllPackagesEuropeLines();
    CityLinesAre(pairs, Line(Stockholm, 0, 475), Line(Malmo, 0, 374),
      Line(Berlin, 0, 370), Line(Hamburg, 0, 359), Line(Munich, 0, 358));
  }

  /** Package 1 with v1 under the per-comparison matcher: the city lines of the package-1 report test. */
  lemma Package1Report()
    ensures CalculateCityLines([P1], V1) == Ok([
      Line(Stockholm, 308, 328), Line(Malmo, 247, 262),
      Line(Berlin, 244, 259), Line(Hamburg, 234, 249), Line(Munich, 232, 247)])
  {
    Package1Pairs();
    Package1Lines([(Some(Door1), Door2), (Some(Tiles1), Tiles1)]);
  }

  /** All packages with v1 under the per-comparison matcher: the city lines of the all-packages report test. */
  lemma AllPackagesReport()
    ensures CalculateCityLines([P1, P2, P3], V1) == Ok([
      Line(Stockholm, 0, 475), Line(Malmo, 0, 374),
      Line(Berlin, 0, 370), Line(Hamburg, 0, 359), Line(Munich, 0, 358)])
  {
    AllPackagesPairs();
    AllPackagesLines([(None, Door3), (None, Tiles2)]);
  }
}
