/** The rule applicability filter of `runAnalysis` (biblio-patri.js,
    lines 289-312): for each observed species, in order, each of its indexed
    rows is tested for geographic scope, dropped when it is not a
    patrimonial status, and kept under the key "nom|type|adm" unless a
    kept row already holds that key. */
module RuleFilter {
  import opened Wrappers
  import opened Strings
  import opened RuleIndex
  import opened AdminTables
  import opened FirstWins

  /** The department and region codes of the analysed point. */
  datatype AdminContext = AdminContext(departmentCode: string, regionCode: string)

  /** The value stored per kept row: the taxon and its rendered status. */
  datatype RelevantRule = RelevantRule(species: string, status: string)

  /** The regulatory header that is administrative text, not a status. */
  const OverseasPrefectureLabel: string :=
    "Liste des espèces végétales sauvages pouvant faire l'objet d'une réglementation préfectorale dans les départements d'outre-mer : Article 1"

  const NationalMarker: string := "nationale"
  const ZnieffMarker: string := "déterminante znieff"
  const RedListMarker: string := "liste rouge"

  /** Red-list codes that are not a threat: least concern, data deficient,
      not applicable, not evaluated. */
  predicate IsNonThreatenedCode(code: string) {
    code == "LC" || code == "DD" || code == "NA" || code == "NE"
  }

  // ---------------------------------------------------------------------------
  // Testing one row
  // ---------------------------------------------------------------------------

  /** The row's scope names the whole country, or its type says "nationale". */
  predicate IsNational(row: RuleRow) {
    AdminCode(row.adm) == Some("FR") || Contains(Lower(row.statusType), NationalMarker)
  }

  /** The row's scope is a historical region that contained the department. */
  predicate InHistoricalRegion(row: RuleRow, ctx: AdminContext) {
    OldRegionDepartments(row.adm).Some? && ctx.departmentCode in OldRegionDepartments(row.adm).value
  }

  /** The code of the row's scope equals the department code or the region
      code; both kinds of code are compared with one table entry. */
  predicate CodeMatches(row: RuleRow, ctx: AdminContext) {
    AdminCode(row.adm) == Some(ctx.departmentCode) || AdminCode(row.adm) == Some(ctx.regionCode)
  }

  /** The scope test, clause by clause in the source's order. */
  predicate ScopeApplies(row: RuleRow, ctx: AdminContext) {
    if IsNational(row) then true
    else if InHistoricalRegion(row, ctx) then true
    else CodeMatches(row, ctx)
  }

  predicate IsRedList(row: RuleRow) {
    Contains(Lower(row.statusType), RedListMarker)
  }

  /** In-scope rows that are nevertheless not patrimonial. */
  predicate Excluded(row: RuleRow) {
    || row.statusLabel == OverseasPrefectureLabel
    || Contains(Lower(row.statusType), ZnieffMarker)
    || (IsRedList(row) && IsNonThreatenedCode(row.code))
  }

  predicate Survives(row: RuleRow, ctx: AdminContext) {
    ScopeApplies(row, ctx) && !Excluded(row)
  }

  /** The survival test at one point, as a value. */
  function SurvivesAt(ctx: AdminContext): RuleRow -> bool {
    row => Survives(row, ctx)
  }

  /** `${row.nom}|${row.type}|${row.adm}`, with the original casing of the type. */
  function RuleKey(row: RuleRow): string {
    row.nom + "|" + row.statusType + "|" + row.adm
  }

  /** A red-list row reads "type (code) (scope)"; any other row reads as its label. */
  function Describe(row: RuleRow): string {
    if IsRedList(row) then row.statusType + " (" + row.code + ") (" + row.adm + ")" else row.statusLabel
  }

  function ToRelevant(row: RuleRow): RelevantRule {
    RelevantRule(row.nom, Describe(row))
  }

  // ---------------------------------------------------------------------------
  // The candidate rows and the first-wins map
  // ---------------------------------------------------------------------------

  /** `rulesByTaxonIndex.get(name)`, an absent name giving no rows. */
  function RowsOf(idx: Index, name: string): seq<RuleRow> {
    if name in idx then idx[name] else []
  }

  /** The rows the two nested loops visit, in visiting order. */
  function Candidates(names: seq<string>, idx: Index): seq<RuleRow>
  {
    if names == [] then []
    else Candidates(names[..|names| - 1], idx) + RowsOf(idx, names[|names| - 1])
  }

  /** The `relevantRules` Map built over the candidate rows at one point:
      keyed by `RuleKey`, holding the rendering of the first surviving row
      with each key. */
  function RelevantEntries(names: seq<string>, idx: Index, ctx: AdminContext): (entries: seq<Entry<string, RelevantRule>>)
    ensures |entries| <= |Candidates(names, idx)|
    ensures forall i, k :: 0 <= i < k < |entries| ==> entries[i].key != entries[k].key
    ensures forall j :: 0 <= j < |Candidates(names, idx)| && Survives(Candidates(names, idx)[j], ctx) ==>
      RuleKey(Candidates(names, idx)[j]) in Keys(entries)
    ensures forall i :: 0 <= i < |entries| ==>
      exists j :: FirstKeptAt(Candidates(names, idx), SurvivesAt(ctx), RuleKey, j, entries[i].key)
               && entries[i].value == ToRelevant(Candidates(names, idx)[j])
  {
    var rows := Candidates(names, idx);
    KeepFirstSpec(rows, SurvivesAt(ctx), RuleKey, ToRelevant);
    KeepFirst(rows, SurvivesAt(ctx), RuleKey, ToRelevant)
  }

  /** `Array.from(relevantRules.values())`: what is sent for analysis. */
  function RelevantRules(names: seq<string>, idx: Index, ctx: AdminContext): (rules: seq<RelevantRule>)
    ensures |rules| == |RelevantEntries(names, idx, ctx)|
    ensures forall i :: 0 <= i < |rules| ==> rules[i] == RelevantEntries(names, idx, ctx)[i].value
  {
    var entries := RelevantEntries(names, idx, ctx);
    seq(|entries|, i requires 0 <= i < |entries| => entries[i].value)
  }

  // ---------------------------------------------------------------------------
  // Properties of the scope test and of the exclusions
  // ---------------------------------------------------------------------------

  /** A national row passes the scope test at every point. */
  lemma NationalAppliesEverywhere(row: RuleRow)
    requires IsNational(row)
    ensures forall ctx :: ScopeApplies(row, ctx)
  {
  }

  /** The scope test holds exactly when one of its three clauses does. */
  lemma ScopeAppliesIff(row: RuleRow, ctx: AdminContext)
    ensures ScopeApplies(row, ctx) <==>
      || AdminCode(row.adm) == Some("FR")
      || Contains(Lower(row.statusType), NationalMarker)
      || (OldRegionDepartments(row.adm).Some? && ctx.departmentCode in OldRegionDepartments(row.adm).value)
      || AdminCode(row.adm) == Some(ctx.departmentCode)
      || AdminCode(row.adm) == Some(ctx.regionCode)
  {
  }

  /** A row whose scope name is in neither table and whose type is not
      national applies nowhere. */
  lemma UnknownScopeAppliesNowhere(row: RuleRow, ctx: AdminContext)
    requires AdminCode(row.adm).None? && OldRegionDepartments(row.adm).None?
    requires !Contains(Lower(row.statusType), NationalMarker)
    ensures !ScopeApplies(row, ctx)
  {
  }

  /** The overseas boilerplate, ZNIEFF-determining rows and non-threatened
      red-list rows never survive, whatever the point. */
  lemma ExclusionsNeverSurvive(row: RuleRow, ctx: AdminContext)
    ensures row.statusLabel == OverseasPrefectureLabel ==> !Survives(row, ctx)
    ensures Contains(Lower(row.statusType), ZnieffMarker) ==> !Survives(row, ctx)
    ensures IsRedList(row) && IsNonThreatenedCode(row.code) ==> !Survives(row, ctx)
  {
  }

  /** "Guadeloupe" is coded "01", the code of the department of Ain: a
      Guadeloupe-scoped rule passes the scope test at any point of Ain. */
  lemma GuadeloupeRuleAppliesInAin(nom: string, code: string, statusType: string, statusLabel: string, region: string)
    ensures ScopeApplies(RuleRow("Guadeloupe", nom, code, statusType, statusLabel), AdminContext("01", region))
  {
    assert AdminCode("Guadeloupe") == Some("01");
  }

  /** "Vaucluse" is coded "84", the code of the Auvergne-Rhône-Alpes region:
      a Vaucluse-scoped rule passes the scope test in Isère (department 38,
      region 84); and "Bourgogne-Franche-Comté" is coded "27", so its rules
      pass in the Eure (department 27, region 28). */
  lemma SharedCodesLeakAcrossLevels(nom: string, code: string, statusType: string, statusLabel: string)
    ensures ScopeApplies(RuleRow("Vaucluse", nom, code, statusType, statusLabel), AdminContext("38", "84"))
    ensures ScopeApplies(RuleRow("Bourgogne-Franche-Comté", nom, code, statusType, statusLabel), AdminContext("27", "28"))
  {
    assert AdminCode("Vaucluse") == Some("84");
    assert AdminCode("Bourgogne-Franche-Comté") == Some("27");
  }

  // ---------------------------------------------------------------------------
  // The dedup key
  // ---------------------------------------------------------------------------

  lemma {:induction false} SplitRuleKey(row: RuleRow)
    requires '|' !in row.nom && '|' !in row.statusType
    ensures Split(RuleKey(row), '|') == [row.nom, row.statusType] + Split(row.adm, '|')
  {
    var rest := row.statusType + "|" + row.adm;
    assert RuleKey(row) == row.nom + ['|'] + rest;
    SplitAfterPiece(row.nom, '|', rest);
    assert rest == row.statusType + ['|'] + row.adm;
    SplitAfterPiece(row.statusType, '|', row.adm);
  }

  /** When names and types hold no "|", equal keys mean equal
      (nom, type, adm) triples. */
  lemma RuleKeyInjective(a: RuleRow, b: RuleRow)
    requires '|' !in a.nom && '|' !in a.statusType && '|' !in b.nom && '|' !in b.statusType
    requires RuleKey(a) == RuleKey(b)
    ensures a.nom == b.nom && a.statusType == b.statusType && a.adm == b.adm
  {
    SplitRuleKey(a);
    SplitRuleKey(b);
    var sa := Split(RuleKey(a), '|');
    assert sa[0] == a.nom && sa[1] == a.statusType && sa[2..] == Split(a.adm, '|');
    assert sa[0] == b.nom && sa[1] == b.statusType && sa[2..] == Split(b.adm, '|');
  }

  /** A "|" inside a field lets two different triples share one key, so the
      second is dropped as a duplicate. */
  lemma RuleKeyCollision(adm: string, code: string, statusLabel: string)
    ensures var a := RuleRow(adm, "A|B", code, "C", statusLabel);
            var b := RuleRow(adm, "A", code, "B|C", statusLabel);
            a.nom != b.nom && RuleKey(a) == RuleKey(b)
  {
    assert "A|B" + "|" + "C" == "A" + "|" + "B|C";
  }

  // ---------------------------------------------------------------------------
  // Properties of the filter as a whole
  // ---------------------------------------------------------------------------

  /** A key is kept exactly when some candidate row carrying it survives;
      so a key whose every row is excluded (boilerplate label,
      ZNIEFF-determining, or red list with LC, DD, NA or NE) or out of
      scope yields no rule. */
  lemma KeptKeysAreSurvivingKeys(names: seq<string>, idx: Index, ctx: AdminContext, key: string)
    ensures key in Keys(RelevantEntries(names, idx, ctx)) <==>
      exists j :: 0 <= j < |Candidates(names, idx)| && Survives(Candidates(names, idx)[j], ctx)
                  && RuleKey(Candidates(names, idx)[j]) == key
  {
    var rows := Candidates(names, idx);
    var entries := RelevantEntries(names, idx, ctx);
    if key in Keys(entries) {
      var i :| 0 <= i < |entries| && Keys(entries)[i] == key;
      var j :| FirstKeptAt(rows, SurvivesAt(ctx), RuleKey, j, entries[i].key) && entries[i].value == ToRelevant(rows[j]);
      assert SurvivesAt(ctx)(rows[j]);
    }
  }

  lemma {:induction false} CandidatesAppend(a: seq<string>, b: seq<string>, idx: Index)
    ensures Candidates(a + b, idx) == Candidates(a, idx) + Candidates(b, idx)
    decreases |b|
  {
    if b == [] {
      assert a + b == a;
    } else {
      var init := b[..|b| - 1];
      assert (a + b)[..|a + b| - 1] == a + init;
      CandidatesAppend(a, init, idx);
    }
  }

  /** Observing more species (appended after the ones already seen) never
      alters the rules already produced: the old list is a prefix of the new. */
  lemma MoreSpeciesExtendRules(names: seq<string>, more: seq<string>, idx: Index, ctx: AdminContext)
    ensures RelevantEntries(names, idx, ctx) <= RelevantEntries(names + more, idx, ctx)
  {
    CandidatesAppend(names, more, idx);
    KeepFirstPrefix(Candidates(names, idx), Candidates(more, idx), SurvivesAt(ctx), RuleKey, ToRelevant);
  }

  lemma {:induction false} CandidatesNamed(names: seq<string>, idx: Index)
    requires WellFormedIndex(idx)
    ensures forall r :: r in Candidates(names, idx) ==> r.nom in names && r.nom in idx
    decreases |names|
  {
    if names != [] {
      var init := names[..|names| - 1];
      CandidatesNamed(init, idx);
      var last := names[|names| - 1];
      forall r | r in RowsOf(idx, last)
        ensures r.nom == last
      {
        var j :| 0 <= j < |idx[last]| && idx[last][j] == r;
      }
    }
  }

  /** On a well-formed index every emitted rule belongs to an observed
      species that has rows in the index; a species absent from the index
      contributes nothing. */
  lemma RulesBelongToObservedSpecies(names: seq<string>, idx: Index, ctx: AdminContext)
    requires WellFormedIndex(idx)
    ensures forall e :: e in RelevantEntries(names, idx, ctx) ==> e.value.species in names && e.value.species in idx
  {
    var rows := Candidates(names, idx);
    var entries := RelevantEntries(names, idx, ctx);
    CandidatesNamed(names, idx);
    forall e | e in entries
      ensures e.value.species in names && e.value.species in idx
    {
      var i :| 0 <= i < |entries| && entries[i] == e;
      var j :| FirstKeptAt(rows, SurvivesAt(ctx), RuleKey, j, entries[i].key) && entries[i].value == ToRelevant(rows[j]);
      assert rows[j] in rows;
    }
  }

  /** Worked example: at a point of the Bas-Rhin (department 67, region 44)
      an Alsace red-list row for Gentiana lutea, code VU, survives: Alsace
      contained department 67, and a vulnerable red-list entry is kept. */
  lemma AlsaceRowSurvives(citation: string)
    requires citation != OverseasPrefectureLabel
    ensures Survives(RuleRow("Alsace", "Gentiana lutea", "VU", "liste rouge régionale", citation), AdminContext("67", "44"))
    ensures Describe(RuleRow("Alsace", "Gentiana lutea", "VU", "liste rouge régionale", citation))
              == "liste rouge régionale (VU) (Alsace)"
  {
    AlsaceRowInScope(citation);
    AlsaceRowNotExcluded(citation);
    AlsaceRowDescribed(citation);
  }

  lemma AlsaceRowInScope(citation: string)
    ensures ScopeApplies(RuleRow("Alsace", "Gentiana lutea", "VU", "liste rouge régionale", citation), AdminContext("67", "44"))
  {
    AlsaceContainsBasRhin();
    assert InHistoricalRegion(RuleRow("Alsace", "Gentiana lutea", "VU", "liste rouge régionale", citation), AdminContext("67", "44"));
  }

  lemma AlsaceRowNotExcluded(citation: string)
    requires citation != OverseasPrefectureLabel
    ensures !Excluded(RuleRow("Alsace", "Gentiana lutea", "VU", "liste rouge régionale", citation))
  {
    RegionalRedListType();
    assert !IsNonThreatenedCode("VU");
  }

  lemma AlsaceRowDescribed(citation: string)
    ensures Describe(RuleRow("Alsace", "Gentiana lutea", "VU", "liste rouge régionale", citation))
              == "liste rouge régionale (VU) (Alsace)"
  {
    RegionalRedListType();
    assert IsRedList(RuleRow("Alsace", "Gentiana lutea", "VU", "liste rouge régionale", citation));
  }

  lemma RegionalRedListType()
    ensures Contains(Lower("liste rouge régionale"), RedListMarker)
    ensures !Contains(Lower("liste rouge régionale"), ZnieffMarker)
  {
    var t := "liste rouge régionale";
    assert Lower(t) == t;
    assert StartsWith(t, RedListMarker);
    NotContainsMissingChar(t, ZnieffMarker, 'z');
  }

  lemma AlsaceContainsBasRhin()
    ensures OldRegionDepartments("Alsace") == Some(["67", "68"])
  {
  }

  /** The same row is the one rule produced for the one observed species. */
  lemma AlsaceExample(citation: string)
    requires citation != OverseasPrefectureLabel
    ensures var row := RuleRow("Alsace", "Gentiana lutea", "VU", "liste rouge régionale", citation);
            RelevantRules(["Gentiana lutea"], map["Gentiana lutea" := [row]], AdminContext("67", "44"))
              == [RelevantRule("Gentiana lutea", "liste rouge régionale (VU) (Alsace)")]
  {
    var row := RuleRow("Alsace", "Gentiana lutea", "VU", "liste rouge régionale", citation);
    var idx := map["Gentiana lutea" := [row]];
    var ctx := AdminContext("67", "44");
    AlsaceRowSurvives(citation);
    assert ["Gentiana lutea"][..0] == [];
    assert Candidates(["Gentiana lutea"], idx) == [row];
    assert [row][..0] == [];
    assert KeepFirst([row], SurvivesAt(ctx), RuleKey, ToRelevant) == [Entry(RuleKey(row), ToRelevant(row))];
  }
}
