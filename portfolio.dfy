/**
 * Geography reference: the per-category, per-city multiplier table and the
 * containment of cities in regions. All of it is a constant match table.
 */
module Portfolio {
  import opened Database

  datatype Region = Scandinavia | Europe

  datatype City = Stockholm | Malmo | Berlin | Hamburg | Munich

  lemma EveryCity(c: City)
    ensures c in {Stockholm, Malmo, Berlin, Hamburg, Munich}
  {
  }

  /** components_in_cities: the multiplier applied to a component's price, per city. */
  function ComponentsInCities(cat: Category): (m: map<City, real>)
    ensures forall c: City :: c in m
    ensures forall c :: c in m ==> m[c] > 0.0
  {
    var m := match cat
      case Door => map[Stockholm := 2.0, Malmo := 1.5, Berlin := 1.5, Hamburg := 1.5, Munich := 1.5]
      case WallTile => map[Stockholm := 7.2, Malmo := 6.5, Berlin := 6.3, Hamburg := 5.6, Munich := 5.5];
    assert forall c: City :: c in m by {
      forall c: City ensures c in m {
        EveryCity(c);
      }
    }
    m
  }

  /** The entry of the multiplier table for `cat` in `city`: the lookup never misses. */
  function Multiplier(cat: Category, city: City): (r: real)
    ensures r > 0.0
  {
    ComponentsInCities(cat)[city]
  }

  lemma DoorMultipliers()
    ensures Multiplier(Door, Stockholm) == 2.0
    ensures forall c :: c != Stockholm ==> Multiplier(Door, c) == 1.5
  {
  }

  lemma WallTileMultipliers()
    ensures Multiplier(WallTile, Stockholm) == 7.2 && Multiplier(WallTile, Malmo) == 6.5
    ensures Multiplier(WallTile, Berlin) == 6.3 && Multiplier(WallTile, Hamburg) == 5.6
    ensures Multiplier(WallTile, Munich) == 5.5
  {
  }

  /** Region::cities: the member cities of `r`, in their fixed order. */
  function Cities(r: Region): (cs: seq<City>)
    ensures cs != []
    ensures forall i, j :: 0 <= i < j < |cs| ==> cs[i] != cs[j]
  {
    match r
    case Scandinavia => [Stockholm, Malmo]
    case Europe => [Berlin, Hamburg, Munich]
  }

  /** Region::values: every region exactly once. */
  function Regions(): (rs: seq<Region>)
    ensures forall x: Region :: multiset(rs)[x] == 1
  {
    var rs := [Scandinavia, Europe];
    assert multiset(rs) == multiset{Scandinavia, Europe};
    assert forall x: Region :: multiset(rs)[x] == 1 by {
      forall x: Region ensures multiset(rs)[x] == 1 {
        assert x == Scandinavia || x == Europe;
      }
    }
    rs
  }

  lemma RegionOrder()
    ensures Regions() == [Scandinavia, Europe]
    ensures Cities(Scandinavia) == [Stockholm, Malmo]
    ensures Cities(Europe) == [Berlin, Hamburg, Munich]
  {
  }

  /** Every city lies in exactly one region, and appears there exactly once. */
  lemma CitiesPartitioned()
    ensures forall c: City :: (c in Cities(Scandinavia)) != (c in Cities(Europe))
  {
    RegionOrder();
    forall c: City ensures (c in Cities(Scandinavia)) != (c in Cities(Europe)) {
      EveryCity(c);
    }
  }
}
