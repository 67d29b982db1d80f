/** GBIF occurrence records as the browser script reads them, and the three
    small derivations made from a list of them: the unique species names,
    the first taxon key per species, and the flora filter. */
module Occurrences {
  import opened Wrappers
  import opened Strings
  import opened FirstWins

  /** The fields of a GBIF occurrence record that the script reads. An
      absent or null `species`, `kingdom` or `phylum` is "", an absent
      `speciesKey` is 0: the script only ever tests them for truthiness. */
  datatype Occurrence = Occurrence(
    species: string,
    speciesKey: nat,
    decimalLatitude: Option<real>,
    decimalLongitude: Option<real>,
    kingdom: string,
    phylum: string)

  function SpeciesOf(o: Occurrence): string { o.species }
  function KeyOf(o: Occurrence): nat { o.speciesKey }
  function Unit(o: Occurrence): () { () }

  /** `filter(Boolean)` on the species name. */
  predicate Named(o: Occurrence) { o.species != "" }

  /** A record usable for the taxon-key table: truthy name and truthy key. */
  predicate Keyed(o: Occurrence) { o.species != "" && o.speciesKey != 0 }

  // ---------------------------------------------------------------------------
  // Unique species names
  // ---------------------------------------------------------------------------

  /** `[...new Set(occurrences.map(o => o.species).filter(Boolean))]`: a Set
      keeps first-insertion order, as the first-wins map does. */
  function UniqueNames(occs: seq<Occurrence>): (names: seq<string>)
    ensures forall a, b :: 0 <= a < b < |names| ==> names[a] != names[b]
    ensures forall n :: n in names <==> n != "" && exists k :: 0 <= k < |occs| && occs[k].species == n
  {
    var entries := KeepFirst(occs, Named, SpeciesOf, Unit);
    KeepFirstSpec(occs, Named, SpeciesOf, Unit);
    KeptNamesAreObserved(occs, entries);
    ObservedNamesAreKept(occs, entries);
    Keys(entries)
  }

  lemma {:induction false} KeptNamesAreObserved(occs: seq<Occurrence>, entries: seq<Entry<string, ()>>)
    requires entries == KeepFirst(occs, Named, SpeciesOf, Unit)
    ensures forall n :: n in Keys(entries) ==> n != "" && exists k :: 0 <= k < |occs| && occs[k].species == n
  {
    KeepFirstSpec(occs, Named, SpeciesOf, Unit);
    forall n | n in Keys(entries)
      ensures n != "" && exists k :: 0 <= k < |occs| && occs[k].species == n
    {
      var a :| 0 <= a < |entries| && Keys(entries)[a] == n;
      var k :| FirstKeptAt(occs, Named, SpeciesOf, k, entries[a].key) && entries[a].value == Unit(occs[k]);
      assert occs[k].species == n;
    }
  }

  lemma {:induction false} ObservedNamesAreKept(occs: seq<Occurrence>, entries: seq<Entry<string, ()>>)
    requires entries == KeepFirst(occs, Named, SpeciesOf, Unit)
    ensures forall n :: n != "" && (exists k :: 0 <= k < |occs| && occs[k].species == n) ==> n in Keys(entries)
  {
    KeepFirstSpec(occs, Named, SpeciesOf, Unit);
    forall n | n != "" && exists k :: 0 <= k < |occs| && occs[k].species == n
      ensures n in Keys(entries)
    {
      var k :| 0 <= k < |occs| && occs[k].species == n;
      assert Named(occs[k]);
    }
  }

  /** The names keep first-seen order: a name listed earlier was first seen
      earlier. */
  lemma {:induction false} UniqueNamesFirstSeenOrder(occs: seq<Occurrence>, a: nat, b: nat, ja: int, jb: int)
    requires a < b < |UniqueNames(occs)|
    requires FirstKeptAt(occs, Named, SpeciesOf, ja, UniqueNames(occs)[a])
    requires FirstKeptAt(occs, Named, SpeciesOf, jb, UniqueNames(occs)[b])
    ensures ja < jb
  {
    KeepFirstOrder(occs, Named, SpeciesOf, Unit, a, b, ja, jb);
  }

  /** More records only add names at the end. */
  lemma UniqueNamesPrefix(occs: seq<Occurrence>, more: seq<Occurrence>)
    ensures UniqueNames(occs) <= UniqueNames(occs + more)
  {
    KeepFirstPrefix(occs, more, Named, SpeciesOf, Unit);
  }

  // ---------------------------------------------------------------------------
  // Taxon keys
  // ---------------------------------------------------------------------------

  /** `taxonKeyMap` (biblio-patri.js, lines 162-167): each species' key from
      the first record carrying both a name and a key. */
  function TaxonKeys(occs: seq<Occurrence>): seq<Entry<string, nat>> {
    KeepFirst(occs, Keyed, SpeciesOf, KeyOf)
  }

  /** `taxonKeyMap.get(name)`: present exactly when some record carries the
      name with a key, and then it is the key of the first such record, so
      it is never 0. */
  function TaxonKeyOf(occs: seq<Occurrence>, name: string): (r: Option<nat>)
    ensures r.None? <==> forall k :: 0 <= k < |occs| && occs[k].species == name ==> !Keyed(occs[k])
    ensures r.Some? ==> exists k :: FirstKeptAt(occs, Keyed, SpeciesOf, k, name) && r.value == occs[k].speciesKey
    ensures r.Some? ==> r.value != 0
  {
    TaxonKeyLookup(occs, name);
    Lookup(TaxonKeys(occs), name)
  }

  lemma {:induction false} TaxonKeyLookup(occs: seq<Occurrence>, name: string)
    ensures var r := Lookup(TaxonKeys(occs), name);
      && (r.None? <==> forall k :: 0 <= k < |occs| && occs[k].species == name ==> !Keyed(occs[k]))
      && (r.Some? ==> exists k :: FirstKeptAt(occs, Keyed, SpeciesOf, k, name) && r.value == occs[k].speciesKey)
  {
    var entries := TaxonKeys(occs);
    KeepFirstSpec(occs, Keyed, SpeciesOf, KeyOf);
    var r := Lookup(entries, name);
    if r.Some? {
      var i :| 0 <= i < |entries| && entries[i] == Entry(name, r.value);
      var k :| FirstKeptAt(occs, Keyed, SpeciesOf, k, entries[i].key) && entries[i].value == KeyOf(occs[k]);
    }
  }

  // ---------------------------------------------------------------------------
  // The flora filter
  // ---------------------------------------------------------------------------

  const VascularPattern: string := "tracheophyta"
  const PlantPattern: string := "plantae"

  /** `(o.phylum && /tracheophyta/i.test(o.phylum)) || (o.kingdom && /plantae/i.test(o.kingdom))`;
      without the `u` flag the `i` flag folds ASCII letters only. */
  predicate IsFlora(o: Occurrence) {
    (o.phylum != "" && Contains(AsciiLower(o.phylum), VascularPattern))
    || (o.kingdom != "" && Contains(AsciiLower(o.kingdom), PlantPattern))
  }

  /** `displayObservations`' filter (biblio-patri.js, lines 432-435). */
  function FloraFilter(occs: seq<Occurrence>): (flora: seq<Occurrence>)
    ensures |flora| <= |occs|
    ensures forall o :: o in flora <==> o in occs && IsFlora(o)
    decreases |occs|
  {
    if occs == [] then []
    else
      var rest := FloraFilter(occs[1..]);
      assert forall o :: o in occs <==> o == occs[0] || o in occs[1..];
      if IsFlora(occs[0]) then [occs[0]] + rest else rest
  }

  /** The filter keeps order: filtering a concatenation concatenates the
      filtered parts. */
  lemma {:induction false} FloraFilterAppend(a: seq<Occurrence>, b: seq<Occurrence>)
    ensures FloraFilter(a + b) == FloraFilter(a) + FloraFilter(b)
    decreases |a|
  {
    if a != [] {
      assert (a + b)[1..] == a[1..] + b;
      FloraFilterAppend(a[1..], b);
    } else {
      assert a + b == b;
    }
  }

  /** A kingdom spelt "PLANTAE" matches, whatever else the record says. */
  lemma UppercaseKingdomIsFlora(o: Occurrence)
    requires o.kingdom == "PLANTAE"
    ensures IsFlora(o)
  {
    assert AsciiLower(o.kingdom) == PlantPattern;
    assert StartsWith(AsciiLower(o.kingdom), PlantPattern);
  }
}
