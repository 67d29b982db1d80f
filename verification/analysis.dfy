/** The whole analysis of `runAnalysis` (biblio-patri.js, lines 265-325)
    and the detailed mapping it hands over to (lines 157-205): the flora
    inventory, the unique names, the commune lookup, the rule filter, the
    call to the serverless handler, and, when species come back as
    patrimonial, the per-species crawl and the grouping by location. The
    outside services are the oracles of `World`. */
module Analysis {
  import opened Wrappers
  import opened FirstWins
  import opened RuleIndex
  import opened RuleFilter
  import opened Occurrences
  import opened Paging
  import opened Cartography
  import opened Handler
  import opened Legend

  /** The services the analysis talks to: the inventory search around the
      point, the commune lookup, the language model with `JSON.parse`, and
      the occurrence search of each taxon key. */
  datatype World = World(
    inventory: Search,
    geo: Coords -> GeoAnswer,
    model: Prompt -> ModelReply,
    parse: string -> ParseOutcome,
    searchFor: nat -> Search)

  /** Why the analysis stopped with "Erreur : ...": an error raised with a
      message, or the analysis service's reply that was not ok (its body
      follows "Le service d'analyse a échoué: "). */
  datatype Failure = Stopped(message: string) | ServiceFailed(reply: Reply)

  /** How the analysis ends: with an error, with no patrimonial species, or
      with the verdicts, the detailed crawl and the locations on the map. */
  datatype Run =
    | Errored(failure: Failure)
    | NothingPatrimonial
    | Mapped(verdicts: PatrimonialMap, legend: seq<LegendRow>, pass: Pass, locations: seq<Entry<CoordKey, Location>>)

  const ServiceFailedPrefix: string := "Le service d'analyse a échoué: "

  /** `Object.keys(patrimonialMap)`, in the map's order. */
  function VerdictNames(verdicts: PatrimonialMap): (names: seq<string>)
    ensures |names| == |verdicts|
    ensures forall i :: 0 <= i < |verdicts| ==> names[i] == verdicts[i].species
  {
    seq(|verdicts|, i requires 0 <= i < |verdicts| => verdicts[i].species)
  }

  /** The request the browser sends: always a POST with all three fields. */
  function ClientEvent(rules: seq<RelevantRule>, names: seq<string>, coords: Coords): Event {
    Event("POST", Parsed(RequestBody(Some(rules), Some(names), Some(coords))))
  }

  /** The table and the mapping step once verdicts are in (lines 157-205,
      250-251), the table's colours being those of the markers. */
  function MapVerdicts(verdicts: PatrimonialMap, occurrences: seq<Occurrence>, searchFor: nat -> Search): Run
    requires verdicts != []
  {
    var names := VerdictNames(verdicts);
    var pass := DetailedPass(names, occurrences, searchFor);
    Mapped(verdicts, LegendTable(names), pass, Aggregate(pass.sightings))
  }

  /** The service's handling of the browser's request, once the inventory
      is in and the commune is known. */
  function ServiceHandling(world: World, coords: Coords, ruleTable: string, occurrences: seq<Occurrence>,
                           departmentCode: string, regionCode: string): Handled
  {
    var rules := RelevantRules(UniqueNames(occurrences), IndexRules(ruleTable), AdminContext(departmentCode, regionCode));
    Handle(ClientEvent(rules, UniqueNames(occurrences), coords), world.geo, world.model, world.parse)
  }

  /** `runAnalysis` at `coords`, with the rule table loaded as text and
      indexed once. */
  function RunAnalysis(world: World, coords: Coords, ruleTable: string): (run: Run)
    ensures InventoryOf(world.inventory).outcome.Aborted? ==>
      run == Errored(Stopped(InventoryOf(world.inventory).outcome.message))
    ensures run.NothingPatrimonial? || run.Mapped? ==> InventoryOf(world.inventory).outcome.Collected?
    ensures run.Mapped? ==> run.verdicts != []
    ensures run.Errored? && run.failure.ServiceFailed? ==> run.failure.reply.statusCode == 500
    ensures run.Mapped? ==> |run.pass.requests| <= DetailMaxPages * |run.verdicts|
    ensures var inv := InventoryOf(world.inventory);
      inv.outcome.Collected? && world.geo(coords).GeoFailed? ==> run == Errored(Stopped(world.geo(coords).message))
    ensures var inv := InventoryOf(world.inventory);
      inv.outcome.Collected? && world.geo(coords).Commune? ==>
        var h := ServiceHandling(world, coords, ruleTable, inv.outcome.occurrences,
                                 world.geo(coords).departmentCode, world.geo(coords).regionCode);
        && (h.reply.statusCode != 200 ==> run == Errored(ServiceFailed(h.reply)))
        && (h.reply.statusCode == 200 && h.reply.body.verdicts == [] ==> run == NothingPatrimonial)
        && (h.reply.statusCode == 200 && h.reply.body.verdicts != [] ==>
              && run.Mapped? && run.verdicts == h.reply.body.verdicts
              && run.legend == LegendTable(VerdictNames(run.verdicts))
              && run.pass == DetailedPass(VerdictNames(run.verdicts), inv.outcome.occurrences, world.searchFor)
              && run.locations == Aggregate(run.pass.sightings))
  {
    var inv := InventoryOf(world.inventory);
    match inv.outcome
    case Aborted(message) => Errored(Stopped(message))
    case Collected(occurrences) =>
      var names := UniqueNames(occurrences);
      match world.geo(coords)
      case GeoFailed(message) => Errored(Stopped(message))
      case Commune(departmentCode, regionCode) =>
        var rules := RelevantRules(names, IndexRules(ruleTable), AdminContext(departmentCode, regionCode));
        var h := ServiceHandling(world, coords, ruleTable, occurrences, departmentCode, regionCode);
        ClientRequestAccepted(rules, names, coords, world);
        if h.reply.statusCode != 200 then Errored(ServiceFailed(h.reply))
        else
          var verdicts := h.reply.body.verdicts;
          if verdicts == [] then NothingPatrimonial
          else MapVerdicts(verdicts, occurrences, world.searchFor)
  }

  /** The browser's own request is never refused as invalid or for its
      method: an error from the service is a 500. */
  lemma ClientRequestAccepted(rules: seq<RelevantRule>, names: seq<string>, coords: Coords, world: World)
    ensures var h := Handle(ClientEvent(rules, names, coords), world.geo, world.model, world.parse);
      h.reply.statusCode in {200, 500} && h.calls != [] && h.calls[0] == GeoCall(coords)
  {
  }

  /** Every species shown at a location is one of the verdicts, shown with
      the palette colour of the verdict's position. */
  lemma {:induction false} MappedSpeciesAreVerdicts(verdicts: PatrimonialMap, occurrences: seq<Occurrence>,
                                                     searchFor: nat -> Search, l: nat, a: nat)
    requires verdicts != []
    requires l < |MapVerdicts(verdicts, occurrences, searchFor).locations|
    requires a < |MapVerdicts(verdicts, occurrences, searchFor).locations[l].value.species|
    ensures var entry := MapVerdicts(verdicts, occurrences, searchFor).locations[l].value.species[a];
      exists i :: 0 <= i < |verdicts| && entry.key == verdicts[i].species && entry.value == SpeciesColour(i)
  {
    var names := VerdictNames(verdicts);
    var pass := DetailedPass(names, occurrences, searchFor);
    var sightings := pass.sightings;
    var loc := Aggregate(sightings)[l];
    LocationSpeciesSpec(sightings, l);
    var entry := loc.value.species[a];
    var k :| FirstKeptAt(sightings, AtKey(loc.key), NameOf, k, entry.key) && entry.value == sightings[k].colour;
    assert sightings[k] in pass.sightings;
    var i :| 0 <= i < |names| && sightings[k].speciesName == names[i] && sightings[k].colour == SpeciesColour(i)
             && TaxonKeyOf(occurrences, names[i]).Some?;
    assert entry.key == verdicts[i].species;
  }

  /** A species whose name no inventory record carries with a taxon key is
      listed among the verdicts but never mapped. */
  lemma {:induction false} UnkeyedVerdictNotMapped(verdicts: PatrimonialMap, occurrences: seq<Occurrence>,
                                                    searchFor: nat -> Search, s: Sighting)
    requires verdicts != []
    requires s in MapVerdicts(verdicts, occurrences, searchFor).pass.sightings
    ensures TaxonKeyOf(occurrences, s.speciesName).Some?
  {
    var names := VerdictNames(verdicts);
    var i :| 0 <= i < |names| && s.speciesName == names[i] && s.colour == SpeciesColour(i)
             && TaxonKeyOf(occurrences, names[i]).Some?;
  }

  /** When the rules go to the service, every one of them is about a
      species of the inventory. */
  lemma SentRulesAreObserved(world: World, coords: Coords, ruleTable: string)
    requires InventoryOf(world.inventory).outcome.Collected?
    requires world.geo(coords).Commune?
    ensures var occurrences := InventoryOf(world.inventory).outcome.occurrences;
      var commune := world.geo(coords);
      var rules := RelevantRules(UniqueNames(occurrences), IndexRules(ruleTable), AdminContext(commune.departmentCode, commune.regionCode));
      forall r :: r in rules ==> exists k :: 0 <= k < |occurrences| && occurrences[k].species == r.species
  {
    var occurrences := InventoryOf(world.inventory).outcome.occurrences;
    var commune := world.geo(coords);
    var names := UniqueNames(occurrences);
    var idx := IndexRules(ruleTable);
    var ctx := AdminContext(commune.departmentCode, commune.regionCode);
    var rules := RelevantRules(names, idx, ctx);
    var entries := RelevantEntries(names, idx, ctx);
    RulesBelongToObservedSpecies(names, idx, ctx);
    forall r | r in rules
      ensures exists k :: 0 <= k < |occurrences| && occurrences[k].species == r.species
    {
      var i :| 0 <= i < |rules| && rules[i] == r;
      assert entries[i] in entries;
      assert r.species in names;
    }
  }
}
