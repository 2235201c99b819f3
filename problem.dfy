/**
 * The cost-comparison pipeline: which comparisons are replaced, which
 * (baseline, selected) option pairs are in force, what an option costs in a
 * city, and the shape of the per-city report.
 */
module Problem {
  import opened Wrappers
  import opened Database
  import opened Portfolio
  import Results

  // ---------------------------------------------------------------------------
  // Replacement resolver

  /** The comparisons of `packages`, package by package, each package's in catalog order. */
  function Comparisons(packages: seq<Package>): (r: seq<Comparison>)
    ensures forall c :: c in r <==> exists p :: p in packages && c in p.comparisons
  {
    if packages == [] then []
    else packages[0].comparisons + Comparisons(packages[1..])
  }

  /** The ids named in the `replacing` list of any of `comparisons`. */
  function ReplacedBy(comparisons: seq<Comparison>): (r: set<ComparisonId>)
    ensures forall id :: id in r <==> exists c :: c in comparisons && id in c.replacing
  {
    if comparisons == [] then {}
    else (set id | id in comparisons[0].replacing) + ReplacedBy(comparisons[1..])
  }

  /**
   * get_replaced_comparsion_ids: every comparison id some comparison of
   * `packages` replaces. One hop only: no closure is taken.
   */
  function ReplacedComparisonIds(packages: seq<Package>): (r: set<ComparisonId>)
    ensures forall id :: id in r <==> exists p, c :: p in packages && c in p.comparisons && id in c.replacing
  {
    ReplacedBy(Comparisons(packages))
  }

  /** The comparisons of `comparisons` whose id is not in `replaced`, in order. */
  function InForce(comparisons: seq<Comparison>, replaced: set<ComparisonId>): (r: seq<Comparison>)
    ensures |r| <= |comparisons|
    ensures forall c :: c in r <==> c in comparisons && c.id !in replaced
    decreases |comparisons|
  {
    if comparisons == [] then []
    else
      var init, last := comparisons[..|comparisons| - 1], comparisons[|comparisons| - 1];
      assert forall c :: c in init ==> c in comparisons;
      InForce(init, replaced) + if last.id in replaced then [] else [last]
  }

  /** The comparisons in force keep their relative order. */
  lemma {:induction false} InForceIsSubsequence(comparisons: seq<Comparison>, replaced: set<ComparisonId>)
    ensures IsSubsequence(InForce(comparisons, replaced), comparisons)
    decreases |comparisons|
  {
    if comparisons == [] {
      assert Embeds([], comparisons, []);
    } else {
      var init, last := comparisons[..|comparisons| - 1], comparisons[|comparisons| - 1];
      assert comparisons == init + [last];
      InForceIsSubsequence(init, replaced);
      SubsequenceSnoc(InForce(init, replaced), init, last, last.id !in replaced);
    }
  }

  // ---------------------------------------------------------------------------
  // Option lookups within a comparison

  /** The first option flagged `existing`, if there is one. */
  function FirstExisting(options: seq<Opt>): (r: Option<Opt>)
    ensures r.None? <==> forall o :: o in options ==> !o.existing
    ensures r.Some? ==> r.value in options && r.value.existing
  {
    if options == [] then None
    else if options[0].existing then Some(options[0])
    else FirstExisting(options[1..])
  }

  /** The baseline found is the first one: every option before it is not a baseline. */
  lemma {:induction false} FirstExistingIsFirst(options: seq<Opt>)
    ensures FirstExisting(options).Some? ==>
      exists k :: 0 <= k < |options| && options[k] == FirstExisting(options).value
        && forall j :: 0 <= j < k ==> !options[j].existing
  {
    if options != [] && !options[0].existing {
      var tail := options[1..];
      FirstExistingIsFirst(tail);
      if FirstExisting(tail).Some? {
        var k :| 0 <= k < |tail| && tail[k] == FirstExisting(tail).value
          && forall j :: 0 <= j < k ==> !tail[j].existing;
        assert options[k + 1] == tail[k];
        forall j | 0 <= j < k + 1 ensures !options[j].existing {
          if j > 0 {
            assert options[j] == tail[j - 1];
          }
        }
      }
    } else if options != [] {
      assert options[0] == FirstExisting(options).value;
    }
  }

  /** The first option whose id is `id`, if there is one. */
  function FirstWithId(options: seq<Opt>, id: OptionId): (r: Option<Opt>)
    ensures r.None? <==> forall o :: o in options ==> o.id != id
    ensures r.Some? ==> r.value in options && r.value.id == id
  {
    if options == [] then None
    else if options[0].id == id then Some(options[0])
    else FirstWithId(options[1..], id)
  }

  /** The option found is the first with that id: every option before it has another id. */
  lemma {:induction false} FirstWithIdIsFirst(options: seq<Opt>, id: OptionId)
    ensures FirstWithId(options, id).Some? ==>
      exists k :: 0 <= k < |options| && options[k] == FirstWithId(options, id).value
        && forall j :: 0 <= j < k ==> options[j].id != id
  {
    if options != [] && options[0].id != id {
      var tail := options[1..];
      FirstWithIdIsFirst(tail, id);
      if FirstWithId(tail, id).Some? {
        var k :| 0 <= k < |tail| && tail[k] == FirstWithId(tail, id).value
          && forall j :: 0 <= j < k ==> tail[j].id != id;
        assert options[k + 1] == tail[k];
        forall j | 0 <= j < k + 1 ensures options[j].id != id {
          if j > 0 {
            assert options[j] == tail[j - 1];
          }
        }
      }
    } else if options != [] {
      assert options[0] == FirstWithId(options, id).value;
    }
  }

  // ---------------------------------------------------------------------------
  // Selection matcher, as the source has it

  /**
   * None of the three `[0]` indexes of the matcher panics: every in-force
   * comparison has a baseline option, the version has a selection, and the
   * comparison has an option with the id of the version's first selection.
   */
  ghost predicate Matchable(packages: seq<Package>, replaced: set<ComparisonId>, version: Version) {
    forall c :: c in InForce(Comparisons(packages), replaced) ==>
      && FirstExisting(c.options).Some?
      && version.selections != []
      && FirstWithId(c.options, version.selections[0].optionId).Some?
  }

  /**
   * `result` pairs each of `inForce`, in order, with Some of its first baseline
   * option and with its first option whose id is that of the version's FIRST
   * selection, whichever comparison that selection is for.
   */
  ghost predicate PairsAsWritten(inForce: seq<Comparison>, version: Version, result: seq<(Option<Opt>, Opt)>) {
    && |result| == |inForce|
    && forall k :: 0 <= k < |inForce| ==> PairAsWritten(inForce[k], version, result[k])
  }

  /** `pair` is what the matcher as written produces for `c`. */
  ghost predicate PairAsWritten(c: Comparison, version: Version, pair: (Option<Opt>, Opt)) {
    && pair.0.Some?
    && pair.0 == FirstExisting(c.options)
    && version.selections != []
    && FirstWithId(c.options, version.selections[0].optionId) == Some(pair.1)
  }

  lemma InForceSnoc(init: seq<Comparison>, last: Comparison, replaced: set<ComparisonId>)
    ensures InForce(init + [last], replaced) == InForce(init, replaced) + if last.id in replaced then [] else [last]
  {
    assert (init + [last])[..|init|] == init;
  }

  /** Each comparison in force occurs exactly as often as among the flattened ones; a replaced one, never. */
  lemma {:induction false} InForceCounts(comparisons: seq<Comparison>, replaced: set<ComparisonId>)
    ensures forall c :: multiset(InForce(comparisons, replaced))[c] == if c.id in replaced then 0 else multiset(comparisons)[c]
    decreases |comparisons|
  {
    if comparisons != [] {
      var init, last := comparisons[..|comparisons| - 1], comparisons[|comparisons| - 1];
      assert comparisons == init + [last];
      InForceCounts(init, replaced);
      InForceSnoc(init, last, replaced);
    }
  }

  /** Filtering a concatenation filters each part: the comparisons of one package do not affect another's. */
  lemma {:induction false} InForceAppend(xs: seq<Comparison>, ys: seq<Comparison>, replaced: set<ComparisonId>)
    ensures InForce(xs + ys, replaced) == InForce(xs, replaced) + InForce(ys, replaced)
    decreases |ys|
  {
    if ys == [] {
      assert xs + ys == xs;
    } else {
      var init, last := ys[..|ys| - 1], ys[|ys| - 1];
      var kept: seq<Comparison> := if last.id in replaced then [] else [last];
      assert ys == init + [last];
      assert xs + ys == (xs + init) + [last];
      calc {
        InForce(xs + ys, replaced);
        { InForceSnoc(xs + init, last, replaced); }
        InForce(xs + init, replaced) + kept;
        { InForceAppend(xs, init, replaced); }
        (InForce(xs, replaced) + InForce(init, replaced)) + kept;
        InForce(xs, replaced) + (InForce(init, replaced) + kept);
        { InForceSnoc(init, last, replaced); }
        InForce(xs, replaced) + InForce(ys, replaced);
      }
    }
  }

  lemma InForcePrefix(comparisons: seq<Comparison>, i: nat, replaced: set<ComparisonId>)
    requires i < |comparisons|
    ensures comparisons[i].id in replaced ==> InForce(comparisons[..i + 1], replaced) == InForce(comparisons[..i], replaced)
    ensures comparisons[i].id !in replaced ==>
      InForce(comparisons[..i + 1], replaced) == InForce(comparisons[..i], replaced) + [comparisons[i]]
  {
    assert comparisons[..i + 1][..i] == comparisons[..i];
  }

  lemma PairsAsWrittenExtend(inForce: seq<Comparison>, version: Version, result: seq<(Option<Opt>, Opt)>,
                             c: Comparison, pair: (Option<Opt>, Opt))
    requires PairsAsWritten(inForce, version, result)
    requires pair.0.Some? && pair.0 == FirstExisting(c.options) && version.selections != []
    requires FirstWithId(c.options, version.selections[0].optionId) == Some(pair.1)
    ensures PairsAsWritten(inForce + [c], version, result + [pair])
  {
    assert PairAsWritten(c, version, pair);
  }

  /** get_existing_and_selected_options, with its global first-selection lookup. */
  method GetExistingAndSelectedOptions(packages: seq<Package>, version: Version, replaced: set<ComparisonId>)
    returns (result: seq<(Option<Opt>, Opt)>)
    requires Matchable(packages, replaced, version)
    ensures PairsAsWritten(InForce(Comparisons(packages), replaced), version, result)
  {
    var comparisons := Comparisons(packages);
    result := [];
    ghost var done: seq<Comparison> := [];
    var i := 0;
    while i < |comparisons|
      invariant 0 <= i <= |comparisons|
      invariant done == InForce(comparisons[..i], replaced)
      invariant PairsAsWritten(done, version, result)
    {
      var comparison := comparisons[i];
      InForcePrefix(comparisons, i, replaced);
      if comparison.id !in replaced {
        MatchableAt(packages, replaced, version, i);
        var current := FirstExisting(comparison.options).value;
        var n := version.selections[0].optionId;
        var selected := FirstWithId(comparison.options, n).value;
        PairsAsWrittenExtend(done, version, result, comparison, (Some(current), selected));
        result := result + [(Some(current), selected)];
        done := done + [comparison];
      }
      assert done == InForce(comparisons[..i + 1], replaced);
      i := i + 1;
    }
    assert comparisons[..i] == comparisons;
  }

  /** What Matchable promises about the `i`-th comparison of the packages when it is in force. */
  lemma MatchableAt(packages: seq<Package>, replaced: set<ComparisonId>, version: Version, i: nat)
    requires Matchable(packages, replaced, version)
    requires i < |Comparisons(packages)| && Comparisons(packages)[i].id !in replaced
    ensures var c := Comparisons(packages)[i];
      && FirstExisting(c.options).Some? && version.selections != []
      && FirstWithId(c.options, version.selections[0].optionId).Some?
  {
    assert Comparisons(packages)[i] in InForce(Comparisons(packages), replaced);
  }

  // ---------------------------------------------------------------------------
  // Selection matcher, per comparison

  datatype MatchError = InvalidVersion(comparison: ComparisonId)

  /** The one selection for comparison `id`; None when there is none or more than one. */
  function SelectionFor(selections: seq<Selection>, id: ComparisonId): (r: Option<Selection>)
    ensures r.Some? <==> SelectsOnce(selections, id)
    ensures r.Some? ==> r.value in selections && r.value.comparisonId == id
  {
    if selections == [] then None
    else if selections[0].comparisonId == id then
      SelectsOnceAtHead(selections, id);
      if forall s :: s in selections[1..] ==> s.comparisonId != id then Some(selections[0]) else None
    else
      SelectsOncePastHead(selections, id);
      SelectionFor(selections[1..], id)
  }

  lemma SelectsOnceAtHead(selections: seq<Selection>, id: ComparisonId)
    requires selections != [] && selections[0].comparisonId == id
    ensures SelectsOnce(selections, id) <==> forall s :: s in selections[1..] ==> s.comparisonId != id
  {
    var tail := selections[1..];
    if forall s :: s in tail ==> s.comparisonId != id {
      forall j | 0 <= j < |selections| && j != 0 ensures selections[j].comparisonId != id {
        assert selections[j] == tail[j - 1];
      }
      SelectsOnceAt(selections, id, 0);
    } else {
      var s :| s in tail && s.comparisonId == id;
      var j :| 0 <= j < |tail| && tail[j] == s;
      assert selections[j + 1] == s;
      SelectsTwice(selections, id, 0, j + 1);
    }
  }

  /** Two selections for the same comparison rule out a single one. */
  lemma SelectsTwice(selections: seq<Selection>, id: ComparisonId, a: nat, b: nat)
    requires a < b < |selections| && selections[a].comparisonId == id && selections[b].comparisonId == id
    ensures !SelectsOnce(selections, id)
  {
    forall i | 0 <= i < |selections| && selections[i].comparisonId == id
      ensures exists j :: 0 <= j < |selections| && j != i && selections[j].comparisonId == id
    {
      if i == a {
        assert selections[b].comparisonId == id;
      } else {
        assert selections[a].comparisonId == id;
      }
    }
  }

  lemma SelectsOnceAt(selections: seq<Selection>, id: ComparisonId, i: nat)
    requires i < |selections| && selections[i].comparisonId == id
    requires forall j :: 0 <= j < |selections| && j != i ==> selections[j].comparisonId != id
    ensures SelectsOnce(selections, id)
  {
  }

  lemma SelectsOncePastHead(selections: seq<Selection>, id: ComparisonId)
    requires selections != [] && selections[0].comparisonId != id
    ensures SelectsOnce(selections, id) <==> SelectsOnce(selections[1..], id)
  {
    if SelectsOnce(selections, id) {
      SelectsOnceInTail(selections, id);
    }
    if SelectsOnce(selections[1..], id) {
      SelectsOnceFromTail(selections, id);
    }
  }

  lemma SelectsOnceInTail(selections: seq<Selection>, id: ComparisonId)
    requires selections != [] && selections[0].comparisonId != id && SelectsOnce(selections, id)
    ensures SelectsOnce(selections[1..], id)
  {
    var tail := selections[1..];
    var i :| 0 <= i < |selections| && selections[i].comparisonId == id
      && forall j :: 0 <= j < |selections| && j != i ==> selections[j].comparisonId != id;
    assert i > 0 && tail[i - 1] == selections[i];
    forall j | 0 <= j < |tail| && j != i - 1 ensures tail[j].comparisonId != id {
      assert tail[j] == selections[j + 1];
    }
    SelectsOnceAt(tail, id, i - 1);
  }

  lemma SelectsOnceFromTail(selections: seq<Selection>, id: ComparisonId)
    requires selections != [] && selections[0].comparisonId != id && SelectsOnce(selections[1..], id)
    ensures SelectsOnce(selections, id)
  {
    var tail := selections[1..];
    var i :| 0 <= i < |tail| && tail[i].comparisonId == id
      && forall j :: 0 <= j < |tail| && j != i ==> tail[j].comparisonId != id;
    assert selections[i + 1] == tail[i];
    forall j | 0 <= j < |selections| && j != i + 1 ensures selections[j].comparisonId != id {
      if j > 0 {
        assert selections[j] == tail[j - 1];
      }
    }
    SelectsOnceAt(selections, id, i + 1);
  }

  /** The version names, for `c`, exactly one selection, and that selection names an option of `c`. */
  ghost predicate Resolvable(c: Comparison, version: Version) {
    var s := SelectionFor(version.selections, c.id);
    s.Some? && FirstWithId(c.options, s.value.optionId).Some?
  }

  /** `pair` holds the baseline of `c` (if any) and the option `c`'s own selection names. */
  ghost predicate PairFor(c: Comparison, version: Version, pair: (Option<Opt>, Opt)) {
    var s := SelectionFor(version.selections, c.id);
    && pair.0 == FirstExisting(c.options)
    && s.Some?
    && FirstWithId(c.options, s.value.optionId) == Some(pair.1)
  }

  /** Pairs for `inForce`, in order, or the first comparison the version cannot resolve. */
  function MatchEach(inForce: seq<Comparison>, version: Version): (r: Result<seq<(Option<Opt>, Opt)>, MatchError>)
    ensures r.Ok? <==> forall c :: c in inForce ==> Resolvable(c, version)
    ensures r.Ok? ==> |r.value| == |inForce| && forall k :: 0 <= k < |inForce| ==> PairFor(inForce[k], version, r.value[k])
    ensures r.Err? ==> exists c :: c in inForce && c.id == r.error.comparison && !Resolvable(c, version)
  {
    if inForce == [] then Ok([])
    else
      var c := inForce[0];
      var s := SelectionFor(version.selections, c.id);
      if s.None? then
        assert c in inForce && !Resolvable(c, version);
        Err(InvalidVersion(c.id))
      else
        var selected := FirstWithId(c.options, s.value.optionId);
        if selected.None? then
          assert c in inForce && !Resolvable(c, version);
          Err(InvalidVersion(c.id))
        else
          match MatchEach(inForce[1..], version)
          case Err(e) => Err(e)
          case Ok(rest) =>
            var pair := (FirstExisting(c.options), selected.value);
            PairsCons(inForce, version, pair, rest);
            Ok([pair] + rest)
  }

  lemma PairsCons(inForce: seq<Comparison>, version: Version, pair: (Option<Opt>, Opt), rest: seq<(Option<Opt>, Opt)>)
    requires inForce != [] && PairFor(inForce[0], version, pair)
    requires |rest| == |inForce| - 1 && forall k :: 0 <= k < |rest| ==> PairFor(inForce[1..][k], version, rest[k])
    ensures forall k :: 0 <= k < |inForce| ==> PairFor(inForce[k], version, ([pair] + rest)[k])
  {
    forall k | 0 <= k < |inForce| ensures PairFor(inForce[k], version, ([pair] + rest)[k]) {
      if k > 0 {
        assert inForce[k] == inForce[1..][k - 1];
      }
    }
  }

  /**
   * The matcher with each comparison looked up through its own selection and
   * the baseline left absent when the comparison has none.
   */
  function MatchSelections(packages: seq<Package>, replaced: set<ComparisonId>, version: Version)
    : (r: Result<seq<(Option<Opt>, Opt)>, MatchError>)
    ensures var inForce := InForce(Comparisons(packages), replaced);
      && (r.Ok? <==> forall c :: c in inForce ==> Resolvable(c, version))
      && (r.Ok? ==> |r.value| == |inForce| && forall k :: 0 <= k < |inForce| ==> PairFor(inForce[k], version, r.value[k]))
  {
    MatchEach(InForce(Comparisons(packages), replaced), version)
  }

  // ---------------------------------------------------------------------------
  // Option pricer

  function RefIds(option: Opt): seq<ComponentId> {
    seq(|option.componentRefs|, k requires 0 <= k < |option.componentRefs| => option.componentRefs[k].componentId)
  }

  /** The sum, left to right, of price times the city's multiplier for the component's category. */
  function WeightedSum(components: seq<Component>, city: City): (r: real)
    ensures (forall c :: c in components ==> c.price >= 0.0) ==> r >= 0.0
    decreases |components|
  {
    if components == [] then 0.0
    else
      var init, last := components[..|components| - 1], components[|components| - 1];
      assert forall c :: c in init ==> c in components;
      var m := Multiplier(last.category, city);
      assert last.price >= 0.0 ==> m * last.price >= 0.0;
      WeightedSum(init, city) + m * last.price
  }

  /** compute_costs_for_option_in_city: the option's catalog components, weighted for `city`. */
  function ComputeCostsForOptionInCity(option: Opt, city: City): (r: real)
    ensures r >= 0.0
  {
    SamplePricesNonNegative();
    WeightedSum(GetComponents(RefIds(option)), city)
  }

  /** An option without component references costs nothing. */
  lemma NoRefsCostNothing(option: Opt, city: City)
    requires option.componentRefs == []
    ensures ComputeCostsForOptionInCity(option, city) == 0.0
  {
    assert RefIds(option) == [];
  }

  /**
   * Only the set of referenced catalog components matters: repeating a
   * reference, reordering them, or referring to an id the catalog lacks does
   * not change the cost.
   */
  lemma CostDependsOnReferencedComponentsOnly(o1: Opt, o2: Opt, city: City)
    requires forall c :: c in COMPONENTS ==> (ComponentRef(c.id) in o1.componentRefs <==> ComponentRef(c.id) in o2.componentRefs)
    ensures ComputeCostsForOptionInCity(o1, city) == ComputeCostsForOptionInCity(o2, city)
  {
    forall c | c in COMPONENTS ensures c.id in RefIds(o1) <==> c.id in RefIds(o2) {
      RefIdsMembership(o1, c.id);
      RefIdsMembership(o2, c.id);
    }
    ComponentsInSameForSameCatalogIds(COMPONENTS, RefIds(o1), RefIds(o2));
  }

  lemma RefIdsMembership(option: Opt, id: ComponentId)
    ensures id in RefIds(option) <==> ComponentRef(id) in option.componentRefs
  {
    var ids := RefIds(option);
    if id in ids {
      var k :| 0 <= k < |ids| && ids[k] == id;
      assert option.componentRefs[k] == ComponentRef(id);
    }
    if ComponentRef(id) in option.componentRefs {
      var k :| 0 <= k < |option.componentRefs| && option.componentRefs[k] == ComponentRef(id);
      assert ids[k] == id;
    }
  }

  // ---------------------------------------------------------------------------
  // Report shape

  /** Rust's `as i32` on a float: toward zero, saturating at the bounds of i32. */
  function TruncateToI32(x: real): (r: int)
    ensures Results.I32_MIN <= r <= Results.I32_MAX
    ensures 0.0 <= x < Results.I32_MAX as real + 1.0 ==> r as real <= x < r as real + 1.0
    ensures Results.I32_MIN as real - 1.0 < x < 0.0 ==> r as real - 1.0 < x <= r as real
    ensures x >= Results.I32_MAX as real + 1.0 ==> r == Results.I32_MAX
    ensures x <= Results.I32_MIN as real - 1.0 ==> r == Results.I32_MIN
  {
    if x >= Results.I32_MAX as real + 1.0 then Results.I32_MAX
    else if x <= Results.I32_MIN as real - 1.0 then Results.I32_MIN
    else if x >= 0.0 then x.Floor
    else -((-x).Floor)
  }

  /** For non-negative costs within range, truncation is the floor. */
  lemma TruncationIsFloor(x: real)
    requires 0.0 <= x < Results.I32_MAX as real + 1.0
    ensures TruncateToI32(x) == x.Floor
  {
  }

  /** The summed baseline cost of `pairs` in `city`; a pair without a baseline adds nothing. */
  function ExistingCostInCity(pairs: seq<(Option<Opt>, Opt)>, city: City): (r: real)
    ensures r >= 0.0
    decreases |pairs|
  {
    if pairs == [] then 0.0
    else
      var last := pairs[|pairs| - 1];
      ExistingCostInCity(pairs[..|pairs| - 1], city)
        + (match last.0 case Some(o) => ComputeCostsForOptionInCity(o, city) case None => 0.0)
  }

  /** Appending a pair adds its baseline's cost, or nothing when it has no baseline. */
  lemma ExistingCostSnoc(pairs: seq<(Option<Opt>, Opt)>, x: (Option<Opt>, Opt), city: City)
    ensures ExistingCostInCity(pairs + [x], city)
         == ExistingCostInCity(pairs, city) + match x.0 case Some(o) => ComputeCostsForOptionInCity(o, city) case None => 0.0
  {
    assert (pairs + [x])[..|pairs|] == pairs;
  }

  /** Pairs none of which has a baseline have no existing cost. */
  lemma {:induction false} NoBaselinesCostNothing(pairs: seq<(Option<Opt>, Opt)>, city: City)
    requires forall k :: 0 <= k < |pairs| ==> pairs[k].0.None?
    ensures ExistingCostInCity(pairs, city) == 0.0
    decreases |pairs|
  {
    if pairs != [] {
      NoBaselinesCostNothing(pairs[..|pairs| - 1], city);
    }
  }

  /** The summed cost of the selected options of `pairs` in `city`. */
  function SelectedCostInCity(pairs: seq<(Option<Opt>, Opt)>, city: City): (r: real)
    ensures r >= 0.0
    decreases |pairs|
  {
    if pairs == [] then 0.0
    else SelectedCostInCity(pairs[..|pairs| - 1], city) + ComputeCostsForOptionInCity(pairs[|pairs| - 1].1, city)
  }

  /** Appending a pair adds its selected option's cost. */
  lemma SelectedCostSnoc(pairs: seq<(Option<Opt>, Opt)>, x: (Option<Opt>, Opt), city: City)
    ensures SelectedCostInCity(pairs + [x], city) == SelectedCostInCity(pairs, city) + ComputeCostsForOptionInCity(x.1, city)
  {
    assert (pairs + [x])[..|pairs|] == pairs;
  }

  /** The report line for `city`: both costs summed over all pairs, then truncated. */
  function CityLine(pairs: seq<(Option<Opt>, Opt)>, city: City): (line: Results.CostCalculationSummaryLine)
    ensures line.scope == Results.Scope.City(city)
    ensures 0 <= line.existingCost && 0 <= line.selectedCost
    ensures var e := ExistingCostInCity(pairs, city);
      e < Results.I32_MAX as real + 1.0 ==> line.existingCost as real <= e < line.existingCost as real + 1.0
    ensures var s := SelectedCostInCity(pairs, city);
      s < Results.I32_MAX as real + 1.0 ==> line.selectedCost as real <= s < line.selectedCost as real + 1.0
  {
    Results.CostCalculationSummaryLine(
      Results.Scope.City(city),
      TruncateToI32(ExistingCostInCity(pairs, city)),
      TruncateToI32(SelectedCostInCity(pairs, city)))
  }

  /** Each region's line followed by its cities' lines, region by region. */
  function RegionBlocks(regions: seq<Region>): seq<Results.Scope> {
    if regions == [] then []
    else
      [Results.Scope.Region(regions[0])]
        + seq(|Cities(regions[0])|, k requires 0 <= k < |Cities(regions[0])| => Results.Scope.City(Cities(regions[0])[k]))
        + RegionBlocks(regions[1..])
  }

  /** The cities of `regions`, region by region. */
  function CitiesOf(regions: seq<Region>): seq<City> {
    if regions == [] then [] else Cities(regions[0]) + CitiesOf(regions[1..])
  }

  /** The scopes of the report, in report order: the group, then each region followed by its cities. */
  function ReportScopes(): (r: seq<Results.Scope>)
    ensures r != [] && r[0] == Results.Scope.Group
  {
    [Results.Scope.Group] + RegionBlocks(Regions())
  }

  /** The cities of the report, in the order their lines appear. */
  function ReportCities(): seq<City> {
    CitiesOf(Regions())
  }

  lemma ReportOrder()
    ensures ReportScopes() == [
      Results.Scope.Group,
      Results.Scope.Region(Scandinavia), Results.Scope.City(Stockholm), Results.Scope.City(Malmo),
      Results.Scope.Region(Europe), Results.Scope.City(Berlin), Results.Scope.City(Hamburg), Results.Scope.City(Munich)]
    ensures ReportCities() == [Stockholm, Malmo, Berlin, Hamburg, Munich]
  {
    RegionOrder();
    assert RegionBlocks([Europe]) == [Results.Scope.Region(Europe), Results.Scope.City(Berlin), Results.Scope.City(Hamburg), Results.Scope.City(Munich)];
  }

  /** One line per city of the report, in report order. */
  function CityLines(pairs: seq<(Option<Opt>, Opt)>): (lines: seq<Results.CostCalculationSummaryLine>)
    ensures |lines| == |ReportCities()|
    ensures forall k :: 0 <= k < |lines| ==> lines[k] == CityLine(pairs, ReportCities()[k])
    ensures forall k :: 0 <= k < |lines| ==>
      && lines[k].scope == Results.Scope.City(ReportCities()[k])
      && 0 <= lines[k].existingCost && 0 <= lines[k].selectedCost
  {
    var cities := ReportCities();
    seq(|cities|, k requires 0 <= k < |cities| => CityLine(pairs, cities[k]))
  }

  /**
   * The per-city part of calculate_summary_lines: resolve the packages, the
   * replaced ids and the pairs, then one line per city in report order.
   */
  function CalculateCityLines(packageIds: seq<PackageId>, version: Version)
    : (r: Result<seq<Results.CostCalculationSummaryLine>, MatchError>)
    ensures var packages := GetPackages(packageIds);
      r.Ok? <==> MatchSelections(packages, ReplacedComparisonIds(packages), version).Ok?
    ensures var packages := GetPackages(packageIds);
      var pairs := MatchSelections(packages, ReplacedComparisonIds(packages), version);
      r.Ok? ==> pairs.Ok? && r.value == CityLines(pairs.value)
    ensures var packages := GetPackages(packageIds);
      var pairs := MatchSelections(packages, ReplacedComparisonIds(packages), version);
      r.Err? ==> pairs.Err? && r.error == pairs.error
    ensures r.Ok? ==>
      && |r.value| == |ReportCities()|
      && forall k :: 0 <= k < |r.value| ==>
        && r.value[k].scope == Results.Scope.City(ReportCities()[k])
        && 0 <= r.value[k].existingCost && 0 <= r.value[k].selectedCost
  {
    var packages := GetPackages(packageIds);
    match MatchSelections(packages, ReplacedComparisonIds(packages), version)
    case Err(e) => Err(e)
    case Ok(pairs) => Ok(CityLines(pairs))
  }
}
