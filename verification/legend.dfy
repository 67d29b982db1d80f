/** The results table of `displayResults` (biblio-patri.js, lines 250-251):
    the species names of the verdicts, sorted with the default `sort`, each
    shown with a palette colour. The table serves as the legend of the
    detailed map, whose markers are coloured by the position of the name in
    the unsorted list (line 172). */
module Legend {
  import opened Occurrences
  import opened Paging
  import opened Cartography
  import RuleIndex

  // ---------------------------------------------------------------------------
  // The default sort
  // ---------------------------------------------------------------------------

  /** The default `sort` order: strings compared character by character,
      a proper prefix first. */
  predicate NotAfter(a: string, b: string)
    decreases |a|
  {
    a == [] || (b != [] && (a[0] < b[0] || (a[0] == b[0] && NotAfter(a[1..], b[1..]))))
  }

  lemma {:induction false} NotAfterTotal(a: string, b: string)
    ensures NotAfter(a, b) || NotAfter(b, a)
    decreases |a|
  {
    if a != [] && b != [] && a[0] == b[0] {
      NotAfterTotal(a[1..], b[1..]);
    }
  }

  predicate Sorted(s: seq<string>) {
    forall i :: 0 <= i < |s| - 1 ==> NotAfter(s[i], s[i + 1])
  }

  /** `x` put in place in a sorted list. */
  function Insert(x: string, s: seq<string>): (r: seq<string>)
    requires Sorted(s)
    ensures Sorted(r)
    ensures multiset(r) == multiset(s) + multiset{x}
    ensures |r| == |s| + 1
    ensures r[0] == x || (s != [] && r[0] == s[0])
    decreases |s|
  {
    if s == [] then [x]
    else if NotAfter(x, s[0]) then [x] + s
    else
      NotAfterTotal(x, s[0]);
      var rest := Insert(x, s[1..]);
      assert s == [s[0]] + s[1..];
      [s[0]] + rest
  }

  /** `Object.keys(patrimonialMap).sort()`: a sorted permutation. */
  function SortNames(names: seq<string>): (sorted: seq<string>)
    ensures Sorted(sorted)
    ensures multiset(sorted) == multiset(names)
    ensures |sorted| == |names|
    decreases |names|
  {
    if names == [] then []
    else
      var rest := SortNames(names[..|names| - 1]);
      assert names == names[..|names| - 1] + [names[|names| - 1]];
      Insert(names[|names| - 1], rest)
  }

  // ---------------------------------------------------------------------------
  // The legend rows
  // ---------------------------------------------------------------------------

  datatype LegendRow = LegendRow(species: string, colour: string)

  /** The species column of a table. */
  function SpeciesColumn(rows: seq<LegendRow>): (column: seq<string>)
    ensures |column| == |rows|
    ensures forall i :: 0 <= i < |rows| ==> column[i] == rows[i].species
  {
    seq(|rows|, i requires 0 <= i < |rows| => rows[i].species)
  }

  /** The table as written: one row per name, in sorted order, the swatch
      of each row taken at the row's own position. */
  function LegendTableAsWritten(names: seq<string>): (rows: seq<LegendRow>)
    ensures Sorted(SpeciesColumn(rows))
    ensures multiset(SpeciesColumn(rows)) == multiset(names)
    ensures forall i :: 0 <= i < |rows| ==> rows[i].colour == SpeciesColour(i)
  {
    var sorted := SortNames(names);
    var rows := seq(|sorted|, i requires 0 <= i < |sorted| => LegendRow(sorted[i], SpeciesColour(i)));
    assert SpeciesColumn(rows) == sorted;
    rows
  }

  /** The table with the colour the markers use: one row per name, in
      sorted order, the swatch of each row taken at the position of its
      species in the unsorted list. */
  function LegendTable(names: seq<string>): (rows: seq<LegendRow>)
    ensures Sorted(SpeciesColumn(rows))
    ensures multiset(SpeciesColumn(rows)) == multiset(names)
    ensures forall i :: 0 <= i < |rows| ==>
      rows[i].species in names && rows[i].colour == SpeciesColour(RuleIndex.IndexOf(names, rows[i].species))
  {
    var sorted := SortNames(names);
    assert forall i :: 0 <= i < |sorted| ==> sorted[i] in names by {
      forall i | 0 <= i < |sorted|
        ensures sorted[i] in names
      {
        assert sorted[i] in multiset(sorted);
      }
    }
    var rows := seq(|sorted|, i requires 0 <= i < |sorted| =>
      LegendRow(sorted[i], SpeciesColour(RuleIndex.IndexOf(names, sorted[i]))));
    assert SpeciesColumn(rows) == sorted;
    rows
  }

  /** With distinct names (keys of one object), every row of the corrected
      legend shows the colour of every marker sighting of its species. */
  lemma LegendMatchesMarkers(names: seq<string>, initial: seq<Occurrence>, searchFor: nat -> Search,
                             r: LegendRow, s: Sighting)
    requires forall a, b :: 0 <= a < b < |names| ==> names[a] != names[b]
    requires r in LegendTable(names)
    requires s in DetailedPass(names, initial, searchFor).sightings
    requires s.speciesName == r.species
    ensures r.colour == s.colour
  {
    var rows := LegendTable(names);
    var k :| 0 <= k < |rows| && rows[k] == r;
    var p := RuleIndex.IndexOf(names, r.species);
    assert r.colour == SpeciesColour(p);
    var i :| 0 <= i < |names| && s.speciesName == names[i] && s.colour == SpeciesColour(i)
             && TaxonKeyOf(initial, names[i]).Some?;
    assert i == p;
  }

  /** Two species listed as "B", "A": the markers of "A" take the second
      colour, but its row, first after sorting, shows the first. */
  lemma LegendAsWrittenMismatch()
    ensures LegendTableAsWritten(["B", "A"])[0] == LegendRow("A", Palette[0])
    ensures LegendTable(["B", "A"])[0] == LegendRow("A", Palette[1])
    ensures Palette[0] != Palette[1]
  {
    var names := ["B", "A"];
    SortTwoNames();
    var sorted := SortNames(names);
    assert sorted[0] == "A";
    assert LegendTableAsWritten(names)[0] == LegendRow(sorted[0], SpeciesColour(0));
    assert RuleIndex.IndexOf(names, "A") == 1;
    assert LegendTable(names)[0] == LegendRow(sorted[0], SpeciesColour(1));
  }

  lemma SortTwoNames()
    ensures SortNames(["B", "A"]) == ["A", "B"]
  {
    SortOneName();
    assert ["B", "A"][..1] == ["B"];
    assert NotAfter("A", "B");
  }

  lemma SortOneName()
    ensures SortNames(["B"]) == ["B"]
  {
    assert ["B"][..0] == [];
  }
}
