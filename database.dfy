/**
 * The catalog: identifiers, the entities of a product catalog, the three
 * lookups over it and the hard-wired sample data they run on.
 * Every lookup is a filter (or a find) over an immutable table.
 */
module Database {
  import opened Wrappers

  // Opaque, string-backed identifiers compared by value.
  datatype PackageId = PackageId(name: string)
  datatype ComparisonId = ComparisonId(name: string)
  datatype OptionId = OptionId(name: string)
  datatype ComponentId = ComponentId(name: string)
  datatype VersionId = VersionId(name: string)

  datatype Category = Door | WallTile

  /** A reference (not ownership) to a catalog component. */
  datatype ComponentRef = ComponentRef(componentId: ComponentId)

  /** One concrete choice of a comparison; `existing` marks the baseline. */
  datatype Opt = Opt(id: OptionId, existing: bool, componentRefs: seq<ComponentRef>)

  /** A decision point: its options, and the comparisons of other packages it supersedes. */
  datatype Comparison = Comparison(id: ComparisonId, options: seq<Opt>, replacing: seq<ComparisonId>)

  datatype Package = Package(id: PackageId, comparisons: seq<Comparison>)

  datatype Selection = Selection(packageId: PackageId, comparisonId: ComparisonId, optionId: OptionId)

  /** A customer's choices, one selection per comparison. */
  datatype Version = Version(id: VersionId, selections: seq<Selection>)

  /** A priced, categorised item; prices are exact reals here. */
  datatype Component = Component(id: ComponentId, price: real, category: Category)

  /** `idx` lists, in increasing order, positions of `s` that hold the elements of `r`. */
  ghost predicate Embeds<T>(r: seq<T>, s: seq<T>, idx: seq<int>) {
    && |idx| == |r|
    && (forall k :: 0 <= k < |idx| ==> 0 <= idx[k] < |s| && s[idx[k]] == r[k])
    && (forall k, l :: 0 <= k < l < |idx| ==> idx[k] < idx[l])
  }

  /** `r` is `s` with some elements deleted and the rest kept in order. */
  ghost predicate IsSubsequence<T>(r: seq<T>, s: seq<T>) {
    exists idx :: Embeds(r, s, idx)
  }

  /** Extending `s` by one element, and `r` by the same element or not, keeps `r` a subsequence. */
  lemma SubsequenceSnoc<T>(r: seq<T>, s: seq<T>, x: T, keep: bool)
    requires IsSubsequence(r, s)
    ensures IsSubsequence(r + (if keep then [x] else []), s + [x])
  {
    var idx :| Embeds(r, s, idx);
    if keep {
      assert Embeds(r + [x], s + [x], idx + [|s|]);
    } else {
      assert r + [] == r;
      assert Embeds(r, s + [x], idx);
    }
  }

  ghost predicate UniquePackageIds(ps: seq<Package>) {
    forall i, j :: 0 <= i < j < |ps| ==> ps[i].id != ps[j].id
  }

  ghost predicate UniqueComponentIds(cs: seq<Component>) {
    forall i, j :: 0 <= i < j < |cs| ==> cs[i].id != cs[j].id
  }

  // ---------------------------------------------------------------------------
  // Packages by id

  /** The packages of `catalog` whose id occurs in `ids`, in catalog order. */
  function PackagesIn(catalog: seq<Package>, ids: seq<PackageId>): (r: seq<Package>)
    ensures |r| <= |catalog|
    ensures forall p :: p in r <==> p in catalog && p.id in ids
    decreases |catalog|
  {
    if catalog == [] then []
    else
      var init, last := catalog[..|catalog| - 1], catalog[|catalog| - 1];
      assert forall x :: x in init ==> x in catalog;
      PackagesIn(init, ids) + if last.id in ids then [last] else []
  }

  /** The selected packages keep their catalog order. */
  lemma {:induction false} PackagesInIsSubsequence(catalog: seq<Package>, ids: seq<PackageId>)
    ensures IsSubsequence(PackagesIn(catalog, ids), catalog)
    decreases |catalog|
  {
    if catalog == [] {
      assert Embeds([], catalog, []);
    } else {
      var init, last := catalog[..|catalog| - 1], catalog[|catalog| - 1];
      assert catalog == init + [last];
      PackagesInIsSubsequence(init, ids);
      SubsequenceSnoc(PackagesIn(init, ids), init, last, last.id in ids);
    }
  }

  lemma PackagesInSnoc(init: seq<Package>, last: Package, ids: seq<PackageId>)
    ensures PackagesIn(init + [last], ids) == PackagesIn(init, ids) + if last.id in ids then [last] else []
  {
    assert (init + [last])[..|init|] == init;
  }

  /**
   * Only which catalog ids are asked for matters: not the order or multiplicity
   * of the requested ids, nor ids the catalog does not hold.
   */
  lemma {:induction false} PackagesInSameForSameCatalogIds(catalog: seq<Package>, ids1: seq<PackageId>, ids2: seq<PackageId>)
    requires forall p :: p in catalog ==> (p.id in ids1 <==> p.id in ids2)
    ensures PackagesIn(catalog, ids1) == PackagesIn(catalog, ids2)
    decreases |catalog|
  {
    if catalog != [] {
      PackagesInSameForSameCatalogIds(catalog[..|catalog| - 1], ids1, ids2);
    }
  }

  /** Each selected package occurs exactly as often as in the catalog; every other, never. */
  lemma {:induction false} PackagesInCounts(catalog: seq<Package>, ids: seq<PackageId>)
    ensures forall p :: multiset(PackagesIn(catalog, ids))[p] == if p.id in ids then multiset(catalog)[p] else 0
    decreases |catalog|
  {
    if catalog != [] {
      var init, last := catalog[..|catalog| - 1], catalog[|catalog| - 1];
      assert catalog == init + [last];
      PackagesInCounts(init, ids);
      PackagesInSnoc(init, last, ids);
    }
  }

  /** Over a catalog with unique ids, no package is returned twice, however often its id is asked for. */
  lemma {:induction false} PackagesInKeepsIdsUnique(catalog: seq<Package>, ids: seq<PackageId>)
    requires UniquePackageIds(catalog)
    ensures UniquePackageIds(PackagesIn(catalog, ids))
    decreases |catalog|
  {
    if catalog != [] {
      var init, last := catalog[..|catalog| - 1], catalog[|catalog| - 1];
      PackagesInKeepsIdsUnique(init, ids);
      var rest := PackagesIn(init, ids);
      if last.id in ids {
        forall p | p in rest ensures p.id != last.id {
          var i :| 0 <= i < |init| && init[i] == p;
          assert catalog[i] == p;
        }
        var r := rest + [last];
        forall i, j | 0 <= i < j < |r| ensures r[i].id != r[j].id {
          if j == |rest| {
            assert r[i] in rest;
          } else {
            assert r[i] == rest[i] && r[j] == rest[j];
          }
        }
      }
    }
  }

  /** get_packages: the catalog packages whose id is among `ids`, in catalog order. */
  function GetPackages(ids: seq<PackageId>): (r: seq<Package>)
    ensures |r| <= |PACKAGES|
    ensures forall p :: p in r <==> p in PACKAGES && p.id in ids
  {
    PackagesIn(PACKAGES, ids)
  }

  // ---------------------------------------------------------------------------
  // Components by id

  /** The components of `catalog` whose id occurs in `ids`, in catalog order. */
  function ComponentsIn(catalog: seq<Component>, ids: seq<ComponentId>): (r: seq<Component>)
    ensures |r| <= |catalog|
    ensures forall c :: c in r <==> c in catalog && c.id in ids
    decreases |catalog|
  {
    if catalog == [] then []
    else
      var init, last := catalog[..|catalog| - 1], catalog[|catalog| - 1];
      assert forall x :: x in init ==> x in catalog;
      ComponentsIn(init, ids) + if last.id in ids then [last] else []
  }

  /** The selected components keep their catalog order. */
  lemma {:induction false} ComponentsInIsSubsequence(catalog: seq<Component>, ids: seq<ComponentId>)
    ensures IsSubsequence(ComponentsIn(catalog, ids), catalog)
    decreases |catalog|
  {
    if catalog == [] {
      assert Embeds([], catalog, []);
    } else {
      var init, last := catalog[..|catalog| - 1], catalog[|catalog| - 1];
      assert catalog == init + [last];
      ComponentsInIsSubsequence(init, ids);
      SubsequenceSnoc(ComponentsIn(init, ids), init, last, last.id in ids);
    }
  }

  lemma ComponentsInSnoc(init: seq<Component>, last: Component, ids: seq<ComponentId>)
    ensures ComponentsIn(init + [last], ids) == ComponentsIn(init, ids) + if last.id in ids then [last] else []
  {
    assert (init + [last])[..|init|] == init;
  }

  /**
   * Only which catalog ids are asked for matters: not the order or multiplicity
   * of the requested ids, nor ids the catalog does not hold.
   */
  lemma {:induction false} ComponentsInSameForSameCatalogIds(catalog: seq<Component>, ids1: seq<ComponentId>, ids2: seq<ComponentId>)
    requires forall c :: c in catalog ==> (c.id in ids1 <==> c.id in ids2)
    ensures ComponentsIn(catalog, ids1) == ComponentsIn(catalog, ids2)
    decreases |catalog|
  {
    if catalog != [] {
      ComponentsInSameForSameCatalogIds(catalog[..|catalog| - 1], ids1, ids2);
    }
  }

  /** Each selected component occurs exactly as often as in the catalog; every other, never. */
  lemma {:induction false} ComponentsInCounts(catalog: seq<Component>, ids: seq<ComponentId>)
    ensures forall c :: multiset(ComponentsIn(catalog, ids))[c] == if c.id in ids then multiset(catalog)[c] else 0
    decreases |catalog|
  {
    if catalog != [] {
      var init, last := catalog[..|catalog| - 1], catalog[|catalog| - 1];
      assert catalog == init + [last];
      ComponentsInCounts(init, ids);
      ComponentsInSnoc(init, last, ids);
    }
  }

  /** get_components: the catalog components whose id is among `ids`, in catalog order. */
  function GetComponents(ids: seq<ComponentId>): (r: seq<Component>)
    ensures |r| <= |COMPONENTS|
    ensures forall c :: c in r <==> c in COMPONENTS && c.id in ids
  {
    ComponentsIn(COMPONENTS, ids)
  }

  // ---------------------------------------------------------------------------
  // Version by id

  /** The first version of `versions` with id `id`, if there is one. */
  function FindVersion(versions: seq<Version>, id: VersionId): (r: Option<Version>)
    ensures r.None? <==> forall v :: v in versions ==> v.id != id
    ensures r.Some? ==>
      exists k :: 0 <= k < |versions| && versions[k] == r.value && r.value.id == id
        && forall j :: 0 <= j < k ==> versions[j].id != id
  {
    if versions == [] then None
    else if versions[0].id == id then Some(versions[0])
    else FindVersion(versions[1..], id)
  }

  /** get_version over the sample versions. */
  function GetVersion(id: VersionId): (r: Option<Version>)
    ensures r.None? <==> forall v :: v in VERSIONS ==> v.id != id
    ensures r.Some? ==> r.value in VERSIONS && r.value.id == id
  {
    FindVersion(VERSIONS, id)
  }

  // ---------------------------------------------------------------------------
  // The sample catalog

  const Door1 := Opt(OptionId("door-1"), true, [ComponentRef(ComponentId("cr-door-1"))])
  const Door2 := Opt(OptionId("door-2"), false, [ComponentRef(ComponentId("cr-door-2"))])
  const Tiles1 := Opt(OptionId("tiles-1"), true, [ComponentRef(ComponentId("cr-tile-1"))])
  const Door3 := Opt(OptionId("door-3"), false, [ComponentRef(ComponentId("cr-door-3"))])
  const Tiles2 := Opt(OptionId("tiles-2"), false,
                      [ComponentRef(ComponentId("cr-tile-2")), ComponentRef(ComponentId("cr-tile-3"))])

  const Comparison1 := Comparison(ComparisonId("comparison-1"), [Door1, Door2], [])
  const Comparison2 := Comparison(ComparisonId("comparison-2"), [Tiles1], [])
  const Comparison3 := Comparison(ComparisonId("comparison-3"), [Door3], [ComparisonId("comparison-1")])
  const Comparison4 := Comparison(ComparisonId("comparison-4"), [Tiles2], [ComparisonId("comparison-2")])

  const Package1 := Package(PackageId("package-1"), [Comparison1, Comparison2])
  const Package2 := Package(PackageId("package-2"), [Comparison3])
  const Package3 := Package(PackageId("package-3"), [Comparison4])

  const PACKAGES: seq<Package> := [Package1, Package2, Package3]

  const COMPONENTS: seq<Component> := [
    Component(ComponentId("cr-door-1"), 100.0, Door),
    Component(ComponentId("cr-door-2"), 110.0, Door),
    Component(ComponentId("cr-door-3"), 180.0, Door),
    Component(ComponentId("cr-tile-1"), 15.0, WallTile),
    Component(ComponentId("cr-tile-2"), 9.0, WallTile),
    Component(ComponentId("cr-tile-3"), 7.0, WallTile)
  ]

  const V1 := Version(VersionId("v1"), [
    Selection(PackageId("package-1"), ComparisonId("comparison-1"), OptionId("door-2")),
    Selection(PackageId("package-1"), ComparisonId("comparison-2"), OptionId("tiles-1")),
    Selection(PackageId("package-2"), ComparisonId("comparison-3"), OptionId("door-3")),
    Selection(PackageId("package-3"), ComparisonId("comparison-4"), OptionId("tiles-2"))
  ])

  const VERSIONS: seq<Version> := [V1]

  // ---------------------------------------------------------------------------
  // Facts about the sample catalog

  /** At most one option of `c` is the baseline. */
  ghost predicate AtMostOneExisting(c: Comparison) {
    forall i, j :: 0 <= i < j < |c.options| ==> !(c.options[i].existing && c.options[j].existing)
  }

  ghost predicate HasExisting(c: Comparison) {
    exists o :: o in c.options && o.existing
  }

  /** Exactly one of `selections` is for comparison `id`. */
  ghost predicate SelectsOnce(selections: seq<Selection>, id: ComparisonId) {
    exists i :: 0 <= i < |selections| && selections[i].comparisonId == id
      && forall j :: 0 <= j < |selections| && j != i ==> selections[j].comparisonId != id
  }

  lemma SampleIdsUnique()
    ensures UniquePackageIds(PACKAGES)
    ensures UniqueComponentIds(COMPONENTS)
  {
  }

  lemma SampleBaselines()
    ensures forall p, c :: p in PACKAGES && c in p.comparisons ==> AtMostOneExisting(c)
    ensures HasExisting(Comparison1) && HasExisting(Comparison2)
    ensures !HasExisting(Comparison3) && !HasExisting(Comparison4)
  {
    assert Door1 in Comparison1.options;
    assert Tiles1 in Comparison2.options;
  }

  lemma SampleVersionFound()
    ensures GetVersion(VersionId("v1")) == Some(V1)
  {
  }

  lemma SampleVersionComplete()
    ensures SelectsOnce(V1.selections, Comparison1.id) && SelectsOnce(V1.selections, Comparison2.id)
    ensures SelectsOnce(V1.selections, Comparison3.id) && SelectsOnce(V1.selections, Comparison4.id)
  {
    var sels := V1.selections;
    forall k | 0 <= k < 4 ensures SelectsOnce(sels, sels[k].comparisonId) {
      forall j | 0 <= j < 4 && j != k ensures sels[j].comparisonId != sels[k].comparisonId {
        assert sels[j].comparisonId.name[11] != sels[k].comparisonId.name[11];
      }
    }
    assert sels[0].comparisonId == Comparison1.id && sels[1].comparisonId == Comparison2.id;
    assert sels[2].comparisonId == Comparison3.id && sels[3].comparisonId == Comparison4.id;
  }

  lemma SamplePricesNonNegative()
    ensures forall c :: c in COMPONENTS ==> c.price >= 0.0
  {
  }
}
