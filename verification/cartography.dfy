/** The detailed mapping pass of `fetchAndDisplayAllPatrimonialOccurrences`
    (biblio-patri.js, lines 157-205): each patrimonial species with a known
    taxon key is crawled page by page and its records tagged with the
    species name and a palette colour; the tagged records are then grouped
    into locations under a five-decimal coordinate key, each location
    listing its species once, with the first colour seen. */
module Cartography {
  import opened Wrappers
  import opened FirstWins
  import opened Occurrences
  import opened Paging

  // ---------------------------------------------------------------------------
  // The palette
  // ---------------------------------------------------------------------------

  const Palette: seq<string> := [
    "#E6194B", "#3CB44B", "#FFE119", "#4363D8", "#F58231", "#911EB4", "#46F0F0",
    "#F032E6", "#BCF60C", "#FABEBE", "#800000", "#AA6E28", "#000075", "#A9A9A9"]

  /** `SPECIES_COLORS[index % SPECIES_COLORS.length]`. */
  function SpeciesColour(index: nat): (colour: string)
    ensures colour in Palette
    ensures colour == Palette[index % 14]
  {
    Palette[index % |Palette|]
  }

  /** The fourteen colours are pairwise different, so two species get the
      same colour exactly when their positions agree modulo 14. */
  lemma SpeciesColourCycle(i: nat, j: nat)
    ensures SpeciesColour(i) == SpeciesColour(j) <==> i % 14 == j % 14
  {
    var a, b := i % 14, j % 14;
    if a != b {
      assert Palette[a] != Palette[b] by {
        assert forall x, y :: 0 <= x < y < 14 ==> Palette[x] != Palette[y];
      }
    }
  }

  // ---------------------------------------------------------------------------
  // The detailed pass
  // ---------------------------------------------------------------------------

  /** A crawled record tagged with `speciesName` and `color`. */
  datatype Sighting = Sighting(occurrence: Occurrence, speciesName: string, colour: string)

  /** One request of the pass: the taxon key and the offset. */
  datatype Request = Request(taxonKey: nat, offset: nat)

  /** The requests made and the tagged records gathered. */
  datatype Pass = Pass(requests: seq<Request>, sightings: seq<Sighting>)

  function Tag(results: seq<Occurrence>, name: string, colour: string): (tagged: seq<Sighting>)
    ensures |tagged| == |results|
    ensures forall k :: 0 <= k < |results| ==> tagged[k] == Sighting(results[k], name, colour)
  {
    seq(|results|, k requires 0 <= k < |results| => Sighting(results[k], name, colour))
  }

  function Requests(taxonKey: nat, offsets: seq<nat>): (rs: seq<Request>)
    ensures |rs| == |offsets|
    ensures forall k :: 0 <= k < |offsets| ==> rs[k] == Request(taxonKey, offsets[k])
  {
    seq(|offsets|, k requires 0 <= k < |offsets| => Request(taxonKey, offsets[k]))
  }

  /** One iteration of the outer loop, for the species at `index`: a
      species without a taxon key in the inventory is skipped without a
      request; otherwise its crawl's results are tagged with its name and
      the colour of its position. */
  function SpeciesPass(initial: seq<Occurrence>, searchFor: nat -> Search, name: string, index: nat): (p: Pass)
    ensures TaxonKeyOf(initial, name).None? ==> p == Pass([], [])
    ensures |p.requests| <= DetailMaxPages
    ensures forall r :: r in p.requests ==> TaxonKeyOf(initial, name) == Some(r.taxonKey)
    ensures forall s :: s in p.sightings ==> s.speciesName == name && s.colour == SpeciesColour(index)
    ensures TaxonKeyOf(initial, name).Some? ==>
      var c := SpeciesCrawl(searchFor(TaxonKeyOf(initial, name).value));
      && p.requests == Requests(TaxonKeyOf(initial, name).value, c.offsets)
      && p.sightings == Tag(c.results, name, SpeciesColour(index))
  {
    match TaxonKeyOf(initial, name)
    case None => Pass([], [])
    case Some(key) =>
      var c := SpeciesCrawl(searchFor(key));
      Pass(Requests(key, c.offsets), Tag(c.results, name, SpeciesColour(index)))
  }

  /** The whole outer loop over `Object.keys(patrimonialMap)`, in order.
      `searchFor(key)` answers the occurrence search of taxon `key`. */
  function DetailedPass(names: seq<string>, initial: seq<Occurrence>, searchFor: nat -> Search): (p: Pass)
    ensures |p.requests| <= DetailMaxPages * |names|
    ensures forall s :: s in p.sightings ==>
      exists i :: 0 <= i < |names| && s.speciesName == names[i] && s.colour == SpeciesColour(i)
                  && TaxonKeyOf(initial, names[i]).Some?
  {
    if names == [] then Pass([], [])
    else
      var init := names[..|names| - 1];
      var index := |names| - 1;
      var before := DetailedPass(init, initial, searchFor);
      var here := SpeciesPass(initial, searchFor, names[index], index);
      var p := Pass(before.requests + here.requests, before.sightings + here.sightings);
      assert forall s :: s in p.sightings ==>
        exists i :: 0 <= i < |names| && s.speciesName == names[i] && s.colour == SpeciesColour(i)
                    && TaxonKeyOf(initial, names[i]).Some? by {
        forall s | s in p.sightings
          ensures exists i :: 0 <= i < |names| && s.speciesName == names[i] && s.colour == SpeciesColour(i)
                              && TaxonKeyOf(initial, names[i]).Some?
        {
          if s in before.sightings {
            var i :| 0 <= i < |init| && s.speciesName == init[i] && s.colour == SpeciesColour(i)
                     && TaxonKeyOf(initial, init[i]).Some?;
            assert names[i] == init[i];
          } else {
            assert s in here.sightings;
          }
        }
      }
      p
  }

  /** The sightings tagged with `name`, in order. */
  function SightingsNamed(ss: seq<Sighting>, name: string): seq<Sighting>
  {
    if ss == [] then []
    else (if ss[0].speciesName == name then [ss[0]] else []) + SightingsNamed(ss[1..], name)
  }

  lemma {:induction false} SightingsNamedAppend(a: seq<Sighting>, b: seq<Sighting>, name: string)
    ensures SightingsNamed(a + b, name) == SightingsNamed(a, name) + SightingsNamed(b, name)
    decreases |a|
  {
    if a == [] {
      assert a + b == b;
    } else {
      var head := if a[0].speciesName == name then [a[0]] else [];
      assert (a + b)[0] == a[0];
      assert (a + b)[1..] == a[1..] + b;
      assert SightingsNamed(a + b, name) == head + SightingsNamed(a[1..] + b, name);
      SightingsNamedAppend(a[1..], b, name);
      assert head + (SightingsNamed(a[1..], name) + SightingsNamed(b, name))
          == (head + SightingsNamed(a[1..], name)) + SightingsNamed(b, name);
    }
  }

  /** Filtering by one name keeps all of a list of that name and none of a
      list of other names. */
  lemma {:induction false} SightingsNamedUniform(ss: seq<Sighting>, other: string, name: string)
    requires forall s :: s in ss ==> s.speciesName == other
    ensures SightingsNamed(ss, name) == if other == name then ss else []
    decreases |ss|
  {
    if ss != [] {
      assert ss[0] in ss;
      SightingsNamedUniform(ss[1..], other, name);
      assert [ss[0]] + ss[1..] == ss;
    }
  }

  /** Each species' loop stands on its own: with distinct names, the
      sightings of the species at `i` are exactly its own crawl's results
      tagged with its name and colour, whatever the other species' crawls
      return, failures included; a species without a taxon key has none. */
  lemma {:induction false} DetailedPassPerSpecies(names: seq<string>, initial: seq<Occurrence>,
                                                   searchFor: nat -> Search, i: nat)
    requires forall a, b :: 0 <= a < b < |names| ==> names[a] != names[b]
    requires i < |names|
    ensures SightingsNamed(DetailedPass(names, initial, searchFor).sightings, names[i])
      == SpeciesPass(initial, searchFor, names[i], i).sightings
    decreases |names|
  {
    var last := |names| - 1;
    var init := names[..last];
    var before := DetailedPass(init, initial, searchFor);
    var here := SpeciesPass(initial, searchFor, names[last], last);
    SightingsNamedAppend(before.sightings, here.sightings, names[i]);
    SightingsNamedUniform(here.sightings, names[last], names[i]);
    if i < last {
      assert init[i] == names[i];
      DetailedPassPerSpecies(init, initial, searchFor, i);
      assert names[i] != names[last];
    } else {
      forall s | s in before.sightings
        ensures s.speciesName != names[i]
      {
        var j :| 0 <= j < |init| && s.speciesName == init[j] && s.colour == SpeciesColour(j)
                 && TaxonKeyOf(initial, init[j]).Some?;
        assert init[j] == names[j];
      }
      SightingsNamedNone(before.sightings, names[i]);
    }
  }

  lemma {:induction false} SightingsNamedNone(ss: seq<Sighting>, name: string)
    requires forall s :: s in ss ==> s.speciesName != name
    ensures SightingsNamed(ss, name) == []
    decreases |ss|
  {
    if ss != [] {
      assert ss[0] in ss;
      SightingsNamedNone(ss[1..], name);
    }
  }

  /** A species' mapped records depend only on its own search: two worlds
      that answer the same search for its taxon key give it the same
      sightings, however the other species' crawls go. */
  lemma DetailedPassIndependent(names: seq<string>, initial: seq<Occurrence>,
                                searchA: nat -> Search, searchB: nat -> Search, i: nat, key: nat)
    requires forall a, b :: 0 <= a < b < |names| ==> names[a] != names[b]
    requires i < |names|
    requires TaxonKeyOf(initial, names[i]) == Some(key)
    requires searchA(key) == searchB(key)
    ensures SightingsNamed(DetailedPass(names, initial, searchA).sightings, names[i])
      == SightingsNamed(DetailedPass(names, initial, searchB).sightings, names[i])
    ensures SightingsNamed(DetailedPass(names, initial, searchA).sightings, names[i])
      == Tag(SpeciesCrawl(searchA(key)).results, names[i], SpeciesColour(i))
  {
    DetailedPassPerSpecies(names, initial, searchA, i);
    DetailedPassPerSpecies(names, initial, searchB, i);
  }

  // ---------------------------------------------------------------------------
  // The coordinate key
  // ---------------------------------------------------------------------------

  /** `x.toFixed(5)` read as data: the sign written when x < 0, and the
      integer n nearest to |x| * 10^5, the larger on a tie. The text is
      determined by the pair and determines it. */
  datatype Fixed = Fixed(minus: bool, scaled: int)

  function Fixed5(x: real): (f: Fixed)
    ensures f.minus <==> x < 0.0
    ensures f.scaled >= 0
    ensures var m := if x < 0.0 then -x else x;
      f.scaled as real - 1.0 / 2.0 <= m * 100000.0 < f.scaled as real + 1.0 / 2.0
  {
    var m := if x < 0.0 then -x else x;
    Fixed(x < 0.0, (m * 100000.0 + 1.0 / 2.0).Floor)
  }

  /** `${lat.toFixed(5)},${lon.toFixed(5)}`. */
  datatype CoordKey = CoordKey(lat: Fixed, lon: Fixed)

  /** Equal keys mean the two values have the same sign and lie within
      0.00001 of each other. */
  lemma SameFixedIsNear(x: real, y: real)
    requires Fixed5(x) == Fixed5(y)
    ensures (x < 0.0 <==> y < 0.0)
    ensures -1.0 / 100000.0 < x - y < 1.0 / 100000.0
  {
  }

  /** Values within a rounding step of zero on either side of it get
      different keys: "-0.00000" and "0.00000". */
  lemma SignSplitsZero()
    ensures Fixed5(-1.0 / 1000000.0) == Fixed(true, 0)
    ensures Fixed5(1.0 / 1000000.0) == Fixed(false, 0)
  {
  }

  // ---------------------------------------------------------------------------
  // Locations
  // ---------------------------------------------------------------------------

  /** `occ.decimalLatitude && occ.decimalLongitude`: present and non-zero. */
  predicate Located(s: Sighting) {
    && s.occurrence.decimalLatitude.Some? && s.occurrence.decimalLatitude.value != 0.0
    && s.occurrence.decimalLongitude.Some? && s.occurrence.decimalLongitude.value != 0.0
  }

  function LatOf(s: Sighting): real {
    s.occurrence.decimalLatitude.GetOr(0.0)
  }

  function LonOf(s: Sighting): real {
    s.occurrence.decimalLongitude.GetOr(0.0)
  }

  function KeyOfSighting(s: Sighting): CoordKey {
    CoordKey(Fixed5(LatOf(s)), Fixed5(LonOf(s)))
  }

  function NameOf(s: Sighting): string { s.speciesName }
  function ColourOf(s: Sighting): string { s.colour }

  /** One location: the coordinates it was created with and its species
      list, each species with its colour. */
  datatype Location = Location(lat: real, lon: real, species: seq<Entry<string, string>>)

  function NewLocation(s: Sighting): Location {
    Location(LatOf(s), LonOf(s), [Entry(NameOf(s), ColourOf(s))])
  }

  /** One record of the `forEach` over the tagged records: a located record
      joins the location of its key, created from it when new, and adds its
      species there unless listed already. */
  function Place(locations: seq<Entry<CoordKey, Location>>, s: Sighting): seq<Entry<CoordKey, Location>> {
    if !Located(s) then locations
    else
      var key := KeyOfSighting(s);
      var i := IndexOfKey(locations, key);
      if i == -1 then locations + [Entry(key, NewLocation(s))]
      else
        var here := locations[i].value;
        locations[i := Entry(key, here.(species := Offer(here.species, NameOf(s), ColourOf(s))))]
  }

  /** The `locations` Map after the `forEach`, in insertion order. */
  function Aggregate(sightings: seq<Sighting>): seq<Entry<CoordKey, Location>> {
    if sightings == [] then []
    else Place(Aggregate(sightings[..|sightings| - 1]), sightings[|sightings| - 1])
  }

  // ---------------------------------------------------------------------------
  // The reference reading of the locations
  // ---------------------------------------------------------------------------

  /** The located records with a given key. */
  function AtKey(key: CoordKey): Sighting -> bool {
    s => Located(s) && KeyOfSighting(s) == key
  }

  function CoordsOf(s: Sighting): (real, real) {
    (LatOf(s), LonOf(s))
  }

  /** The species list of a key: its records' names, first colour wins. */
  function SpeciesAt(sightings: seq<Sighting>, key: CoordKey): seq<Entry<string, string>> {
    KeepFirst(sightings, AtKey(key), NameOf, ColourOf)
  }

  /** Reference reading: one location per key, in the order keys are first
      met, at the coordinates of the first record with that key, listing
      that key's species. */
  function Buckets(sightings: seq<Sighting>): (buckets: seq<Entry<CoordKey, Location>>)
    ensures Keys(buckets) == Keys(KeepFirst(sightings, Located, KeyOfSighting, CoordsOf))
  {
    var firsts := KeepFirst(sightings, Located, KeyOfSighting, CoordsOf);
    seq(|firsts|, i requires 0 <= i < |firsts| =>
      Entry(firsts[i].key, Location(firsts[i].value.0, firsts[i].value.1, SpeciesAt(sightings, firsts[i].key))))
  }

  /** Placing the last record changes only the species list of its own key. */
  lemma SpeciesAtSnoc(init: seq<Sighting>, s: Sighting, key: CoordKey)
    ensures SpeciesAt(init + [s], key) ==
      if AtKey(key)(s) then Offer(SpeciesAt(init, key), NameOf(s), ColourOf(s)) else SpeciesAt(init, key)
  {
    assert (init + [s])[..|init + [s]| - 1] == init;
  }

  lemma FirstsSnoc(init: seq<Sighting>, s: Sighting)
    ensures KeepFirst(init + [s], Located, KeyOfSighting, CoordsOf) ==
      if Located(s) then Offer(KeepFirst(init, Located, KeyOfSighting, CoordsOf), KeyOfSighting(s), CoordsOf(s))
      else KeepFirst(init, Located, KeyOfSighting, CoordsOf)
  {
    assert (init + [s])[..|init + [s]| - 1] == init;
  }

  /** The one-pass grouping builds exactly the reference locations. */
  lemma {:induction false} AggregateIsBuckets(sightings: seq<Sighting>)
    ensures Aggregate(sightings) == Buckets(sightings)
    decreases |sightings|
  {
    if sightings != [] {
      var init := sightings[..|sightings| - 1];
      var s := sightings[|sightings| - 1];
      assert sightings == init + [s];
      AggregateIsBuckets(init);
      PlaceIsBucketsStep(init, s);
    }
  }

  lemma PlaceIsBucketsStep(init: seq<Sighting>, s: Sighting)
    ensures Place(Buckets(init), s) == Buckets(init + [s])
  {
    if !Located(s) {
      StepUnlocated(init, s);
    } else if IndexOfKey(Buckets(init), KeyOfSighting(s)) == -1 {
      StepNewKey(init, s);
    } else {
      StepKnownKey(init, s);
    }
  }

  /** Keys other than the record's own keep their species lists. */
  lemma OtherKeysUnchanged(init: seq<Sighting>, s: Sighting)
    ensures forall key :: !AtKey(key)(s) ==> SpeciesAt(init + [s], key) == SpeciesAt(init, key)
  {
    forall key | !AtKey(key)(s)
      ensures SpeciesAt(init + [s], key) == SpeciesAt(init, key)
    {
      SpeciesAtSnoc(init, s, key);
    }
  }

  lemma StepUnlocated(init: seq<Sighting>, s: Sighting)
    requires !Located(s)
    ensures Place(Buckets(init), s) == Buckets(init + [s])
  {
    FirstsSnoc(init, s);
    OtherKeysUnchanged(init, s);
    var before := Buckets(init);
    var after := Buckets(init + [s]);
    assert |after| == |before|;
    forall j | 0 <= j < |before|
      ensures after[j] == before[j]
    {
    }
  }

  lemma StepNewKey(init: seq<Sighting>, s: Sighting)
    requires Located(s)
    requires IndexOfKey(Buckets(init), KeyOfSighting(s)) == -1
    ensures Place(Buckets(init), s) == Buckets(init + [s])
  {
    var key := KeyOfSighting(s);
    var firsts0 := KeepFirst(init, Located, KeyOfSighting, CoordsOf);
    FirstsSnoc(init, s);
    assert key !in Keys(firsts0);
    var before := Buckets(init);
    var after := Buckets(init + [s]);
    assert |after| == |before| + 1;
    forall j | 0 <= j < |before|
      ensures after[j] == before[j]
    {
      BucketUnchanged(init, s, j);
    }
    SpeciesAtSnoc(init, s, key);
    NothingAtNewKey(init, key);
    assert AtKey(key)(s);
    assert SpeciesAt(init + [s], key) == [Entry(NameOf(s), ColourOf(s))];
    var firsts1 := KeepFirst(init + [s], Located, KeyOfSighting, CoordsOf);
    assert firsts1 == firsts0 + [Entry(key, CoordsOf(s))];
    assert firsts1[|before|] == Entry(key, CoordsOf(s));
    assert after[|before|] == Entry(key, NewLocation(s));
  }

  /** The bucket of a key other than the record's own is the same before and
      after the record. */
  lemma BucketUnchanged(init: seq<Sighting>, s: Sighting, j: nat)
    requires j < |KeepFirst(init, Located, KeyOfSighting, CoordsOf)|
    requires KeepFirst(init, Located, KeyOfSighting, CoordsOf)[j].key != KeyOfSighting(s)
    ensures KeepFirst(init, Located, KeyOfSighting, CoordsOf) <= KeepFirst(init + [s], Located, KeyOfSighting, CoordsOf)
    ensures Buckets(init + [s])[j] == Buckets(init)[j]
  {
    var firsts0 := KeepFirst(init, Located, KeyOfSighting, CoordsOf);
    KeepFirstPrefix(init, [s], Located, KeyOfSighting, CoordsOf);
    SpeciesAtSnoc(init, s, firsts0[j].key);
  }

  /** A key no located record has yet has an empty species list. */
  lemma NothingAtNewKey(init: seq<Sighting>, key: CoordKey)
    requires key !in Keys(KeepFirst(init, Located, KeyOfSighting, CoordsOf))
    ensures SpeciesAt(init, key) == []
  {
    KeepFirstSpec(init, Located, KeyOfSighting, CoordsOf);
    forall j | 0 <= j < |init|
      ensures !AtKey(key)(init[j])
    {
      if Located(init[j]) {
        assert KeyOfSighting(init[j]) in Keys(KeepFirst(init, Located, KeyOfSighting, CoordsOf));
      }
    }
    KeepFirstNoneKept(init, AtKey(key), NameOf, ColourOf);
  }

  lemma StepKnownKey(init: seq<Sighting>, s: Sighting)
    requires Located(s)
    requires IndexOfKey(Buckets(init), KeyOfSighting(s)) != -1
    ensures Place(Buckets(init), s) == Buckets(init + [s])
  {
    var key := KeyOfSighting(s);
    var firsts0 := KeepFirst(init, Located, KeyOfSighting, CoordsOf);
    FirstsSnoc(init, s);
    KeepFirstSpec(init, Located, KeyOfSighting, CoordsOf);
    var before := Buckets(init);
    var after := Buckets(init + [s]);
    var i := IndexOfKey(before, key);
    assert |after| == |before|;
    forall j | 0 <= j < |before| && j != i
      ensures after[j] == before[j]
    {
      assert firsts0[j].key != firsts0[i].key;
      BucketUnchanged(init, s, j);
    }
    SpeciesAtSnoc(init, s, key);
    assert after[i].value.species == Offer(before[i].value.species, NameOf(s), ColourOf(s));
  }

  // ---------------------------------------------------------------------------
  // What the grouping guarantees
  // ---------------------------------------------------------------------------

  /** At most one location per record, one location per key, every located
      record in a location of its key, and each location at the coordinates
      of the first located record with that key; records lacking a
      coordinate (0 included) are in none. */
  lemma AggregateSpec(sightings: seq<Sighting>)
    ensures var locs := Aggregate(sightings);
      && |locs| <= |sightings|
      && (forall i, j :: 0 <= i < j < |locs| ==> locs[i].key != locs[j].key)
      && (forall k :: 0 <= k < |sightings| && Located(sightings[k]) ==> KeyOfSighting(sightings[k]) in Keys(locs))
      && (forall i :: 0 <= i < |locs| ==>
            exists k :: FirstKeptAt(sightings, Located, KeyOfSighting, k, locs[i].key)
                        && locs[i].value.lat == LatOf(sightings[k]) && locs[i].value.lon == LonOf(sightings[k]))
  {
    AggregateIsBuckets(sightings);
    var firsts := KeepFirst(sightings, Located, KeyOfSighting, CoordsOf);
    KeepFirstSpec(sightings, Located, KeyOfSighting, CoordsOf);
    var locs := Aggregate(sightings);
    forall i | 0 <= i < |locs|
      ensures exists k :: FirstKeptAt(sightings, Located, KeyOfSighting, k, locs[i].key)
                          && locs[i].value.lat == LatOf(sightings[k]) && locs[i].value.lon == LonOf(sightings[k])
    {
      var k :| FirstKeptAt(sightings, Located, KeyOfSighting, k, firsts[i].key) && firsts[i].value == CoordsOf(sightings[k]);
      assert locs[i].key == firsts[i].key;
    }
  }

  /** Each location lists every species of its records once, with the
      colour of the first record of that species there. */
  lemma LocationSpeciesSpec(sightings: seq<Sighting>, i: nat)
    requires i < |Aggregate(sightings)|
    ensures var loc := Aggregate(sightings)[i];
      && (forall a, b :: 0 <= a < b < |loc.value.species| ==> loc.value.species[a].key != loc.value.species[b].key)
      && (forall k :: 0 <= k < |sightings| && AtKey(loc.key)(sightings[k]) ==> sightings[k].speciesName in Keys(loc.value.species))
      && (forall a :: 0 <= a < |loc.value.species| ==>
            exists k :: FirstKeptAt(sightings, AtKey(loc.key), NameOf, k, loc.value.species[a].key)
                        && loc.value.species[a].value == sightings[k].colour)
  {
    AggregateIsBuckets(sightings);
    var loc := Aggregate(sightings)[i];
    assert loc.value.species == SpeciesAt(sightings, loc.key);
    KeepFirstSpec(sightings, AtKey(loc.key), NameOf, ColourOf);
  }

  /** A record on the equator or on the Greenwich meridian (a coordinate
      of exactly 0) is never placed. */
  lemma ZeroCoordinateIsDropped(sightings: seq<Sighting>, s: Sighting)
    requires s.occurrence.decimalLongitude == Some(0.0)
    ensures Aggregate(sightings + [s]) == Aggregate(sightings)
  {
    assert (sightings + [s])[..|sightings + [s]| - 1] == sightings;
  }
}
