/** The rule table index: the semicolon-separated BDCstatut reference table
    read into a map from exact taxon name to that taxon's rows, in file
    order (biblio-patri.js, `indexRulesFromCSV`). */
module RuleIndex {
  import opened Strings

  /** One data line of the reference table, every field already cleaned. */
  datatype RuleRow = RuleRow(adm: string, nom: string, code: string, statusType: string, statusLabel: string)

  /** The index: taxon name to its rows. */
  type Index = map<string, seq<RuleRow>>

  /** Where each required column sits in the header; -1 when it is absent. */
  datatype Columns = Columns(adm: int, nom: int, code: int, statusType: int, statusLabel: int)

  const AdmColumn: string := "LB_ADM_TR"
  const NomColumn: string := "LB_NOM"
  const CodeColumn: string := "CODE_STATUT"
  const TypeColumn: string := "LB_TYPE_STATUT"
  const LabelColumn: string := "LABEL_STATUT"

  // ---------------------------------------------------------------------------
  // Reading the text
  // ---------------------------------------------------------------------------

  /** Drops one carriage return at the end of a line. */
  function DropCR(line: string): string {
    if |line| > 0 && line[|line| - 1] == '\r' then line[..|line| - 1] else line
  }

  /** `text.split(/\r?\n/)`: split on line feeds, each line feed taking one
      carriage return just before it along; the last piece is followed by no
      line feed and keeps its characters. */
  function Lines(text: string): (lines: seq<string>)
    ensures |lines| == |Split(text, '\n')| >= 1
    ensures forall i :: 0 <= i < |lines| ==> '\n' !in lines[i]
  {
    var parts := Split(text, '\n');
    seq(|parts|, i requires 0 <= i < |parts| => if i < |parts| - 1 then DropCR(parts[i]) else parts[i])
  }

  /** Text without carriage returns splits into lines that join back to it. */
  lemma LinesWithoutCR(text: string)
    requires '\r' !in text
    ensures Lines(text) == Split(text, '\n')
    ensures Join(Lines(text), '\n') == text
  {
    var parts := Split(text, '\n');
    var lines := Lines(text);
    forall i | 0 <= i < |parts| - 1
      ensures lines[i] == parts[i]
    {
      if |parts[i]| > 0 && parts[i][|parts[i]| - 1] == '\r' {
        SplitPieceChars(text, '\n', i, |parts[i]| - 1);
      }
    }
  }

  /** Lines written with Windows line ends: each line but the last followed
      by a carriage return, then all joined with line feeds. */
  function CrlfText(lines: seq<string>): string
    requires |lines| >= 1
  {
    Join(CrlfPieces(lines), '\n')
  }

  function CrlfPieces(lines: seq<string>): (pieces: seq<string>)
    ensures |pieces| == |lines|
  {
    seq(|lines|, i requires 0 <= i < |lines| => if i < |lines| - 1 then lines[i] + ['\r'] else lines[i])
  }

  /** Text with "\r\n" line ends splits back into its lines, the carriage
      returns gone, when no line holds a line end of its own. */
  lemma CrlfLinesRoundTrip(lines: seq<string>)
    requires |lines| >= 1
    requires forall i :: 0 <= i < |lines| ==> '\n' !in lines[i] && '\r' !in lines[i]
    ensures Lines(CrlfText(lines)) == lines
  {
    var pieces := CrlfPieces(lines);
    forall i | 0 <= i < |pieces|
      ensures '\n' !in pieces[i]
    {
      if i < |lines| - 1 {
        assert pieces[i] == lines[i] + ['\r'];
      }
    }
    SplitJoin(pieces, '\n');
    var result := Lines(CrlfText(lines));
    forall i | 0 <= i < |lines|
      ensures result[i] == lines[i]
    {
      if i < |lines| - 1 {
        assert pieces[i] == lines[i] + ['\r'];
        assert DropCR(pieces[i]) == lines[i];
      }
    }
  }

  /** Every character of a piece of `Split(s, sep)` is a character of `s`. */
  lemma {:induction false} SplitPieceChars(s: string, sep: char, i: nat, j: nat)
    requires i < |Split(s, sep)| && j < |Split(s, sep)[i]|
    ensures Split(s, sep)[i][j] in s
    decreases |s|
  {
    if s != [] {
      var rest := Split(s[1..], sep);
      if s[0] == sep {
        SplitPieceChars(s[1..], sep, i - 1, j);
      } else if i == 0 && j == 0 {
      } else if i == 0 {
        SplitPieceChars(s[1..], sep, 0, j - 1);
      } else {
        SplitPieceChars(s[1..], sep, i, j);
      }
    }
  }

  /** A cell as the reader sees it: trimmed, then stripped of every `"`,
      interior ones included. */
  function CleanCell(cell: string): (r: string)
    ensures '"' !in r
    ensures forall x :: x != '"' ==> multiset(r)[x] == multiset(Trim(cell))[x]
  {
    RemoveAll(Trim(cell), '"')
  }

  /** A cell that is already clean reads as itself. */
  lemma CleanCellKeepsPlain(v: string)
    requires '"' !in v && Trimmed(v)
    ensures CleanCell(v) == v
  {
    TrimKeepsTrimmed(v);
    RemoveAllAbsent(v, '"');
  }

  /** A quoted cell, `"v"`, reads as `v`: the quotes are dropped and the
      inside keeps its order. */
  lemma CleanCellUnquotes(v: string)
    requires '"' !in v
    ensures CleanCell("\"" + v + "\"") == v
  {
    var q := "\"" + v + "\"";
    assert Trimmed(q);
    TrimKeepsTrimmed(q);
    RemoveAllAppend("\"" + v, "\"", '"');
    RemoveAllAppend("\"", v, '"');
    RemoveAllChar('"', '"');
    RemoveAllAbsent(v, '"');
  }

  /** `xs.indexOf(x)`: the first position of `x`, or -1. */
  function IndexOf(xs: seq<string>, x: string): (k: int)
    ensures -1 <= k < |xs|
    ensures k == -1 <==> x !in xs
    ensures k >= 0 ==> xs[k] == x && x !in xs[..k]
  {
    if xs == [] then -1
    else if xs[0] == x then 0
    else
      var k := IndexOf(xs[1..], x);
      assert k >= 0 ==> xs[..k + 1] == [xs[0]] + xs[1..][..k];
      if k == -1 then -1 else k + 1
  }

  /** The header line's cells, each cleaned. */
  function HeaderCells(headerLine: string): (cells: seq<string>)
    ensures |cells| == |Split(headerLine, ';')|
    ensures forall i :: 0 <= i < |cells| ==> cells[i] == CleanCell(Split(headerLine, ';')[i])
  {
    var raw := Split(headerLine, ';');
    seq(|raw|, i requires 0 <= i < |raw| => CleanCell(raw[i]))
  }

  function HeaderColumns(headerLine: string): Columns {
    var cells := HeaderCells(headerLine);
    Columns(IndexOf(cells, AdmColumn), IndexOf(cells, NomColumn), IndexOf(cells, CodeColumn),
            IndexOf(cells, TypeColumn), IndexOf(cells, LabelColumn))
  }

  /** `cols[k]?.trim().replace(/"/g, '') || ''`: a missing position (-1 or
      past the end of the line) reads as the empty string. */
  function CellAt(cols: seq<string>, k: int): (r: string)
    ensures '"' !in r
    ensures !(0 <= k < |cols|) ==> r == ""
    ensures 0 <= k < |cols| ==> r == CleanCell(cols[k])
  {
    if 0 <= k < |cols| then CleanCell(cols[k]) else ""
  }

  function ParseRow(line: string, c: Columns): (row: RuleRow)
    ensures '"' !in row.adm && '"' !in row.nom && '"' !in row.code && '"' !in row.statusType && '"' !in row.statusLabel
  {
    var cols := Split(line, ';');
    RuleRow(CellAt(cols, c.adm), CellAt(cols, c.nom), CellAt(cols, c.code), CellAt(cols, c.statusType), CellAt(cols, c.statusLabel))
  }

  /** The cell at position `k` of `cells`, or '' outside it. */
  function CellOr(cells: seq<string>, k: int): string {
    if 0 <= k < |cells| then cells[k] else ""
  }

  /** A line written from clean cells joined with ';' reads back field by
      field: each field is the cell at its column's position, an absent
      column reading as ''. */
  lemma ParseRowReadsCells(cells: seq<string>, c: Columns)
    requires |cells| >= 1
    requires forall j :: 0 <= j < |cells| ==> ';' !in cells[j] && '"' !in cells[j] && Trimmed(cells[j])
    ensures ParseRow(Join(cells, ';'), c)
      == RuleRow(CellOr(cells, c.adm), CellOr(cells, c.nom), CellOr(cells, c.code),
                 CellOr(cells, c.statusType), CellOr(cells, c.statusLabel))
  {
    SplitJoin(cells, ';');
    forall j | 0 <= j < |cells|
      ensures CleanCell(cells[j]) == cells[j]
    {
      CleanCellKeepsPlain(cells[j]);
    }
  }

  /** The lines of the trimmed text; the first is the header. */
  function TableLines(csvText: string): (lines: seq<string>)
    ensures |lines| >= 1
  {
    Lines(Trim(csvText))
  }

  /** Data lines read as rows with the header's column positions, blank
      and incomplete ones included, in file order. */
  function ParseRows(lines: seq<string>, c: Columns): (rows: seq<RuleRow>)
    ensures |rows| == |lines|
    ensures forall i :: 0 <= i < |rows| ==> rows[i] == ParseRow(lines[i], c)
  {
    seq(|lines|, i requires 0 <= i < |lines| => ParseRow(lines[i], c))
  }

  /** Every line after the header, read as a row. */
  function ParseTable(csvText: string): seq<RuleRow> {
    var lines := TableLines(csvText);
    ParseRows(lines[1..], HeaderColumns(lines[0]))
  }

  // ---------------------------------------------------------------------------
  // Building the index
  // ---------------------------------------------------------------------------

  /** Only rows with a taxon name and a status type are indexed. */
  predicate Indexable(r: RuleRow) {
    r.nom != "" && r.statusType != ""
  }

  /** Every list is non-empty and holds indexable rows filed under their own name. */
  predicate WellFormedIndex(idx: Index) {
    forall k :: k in idx ==>
      && idx[k] != []
      && forall j :: 0 <= j < |idx[k]| ==> idx[k][j].nom == k && Indexable(idx[k][j])
  }

  /** Reference reading: the indexable rows named `k`, in file order. */
  function RowsNamed(rows: seq<RuleRow>, k: string): seq<RuleRow>
  {
    if rows == [] then []
    else (if Indexable(rows[0]) && rows[0].nom == k then [rows[0]] else []) + RowsNamed(rows[1..], k)
  }

  /** Appending a row appends it to its own name's rows, and to no other. */
  lemma {:induction false} RowsNamedSnoc(rows: seq<RuleRow>, r: RuleRow, k: string)
    ensures RowsNamed(rows + [r], k) == RowsNamed(rows, k) + (if Indexable(r) && r.nom == k then [r] else [])
    decreases |rows|
  {
    if rows == [] {
      assert [] + [r] == [r];
    } else {
      assert (rows + [r])[1..] == rows[1..] + [r];
      RowsNamedSnoc(rows[1..], r, k);
    }
  }

  /** The forEach loop of `indexRulesFromCSV`: each indexable row is pushed
      onto the list of its name, a new list being made the first time. */
  function BuildIndex(rows: seq<RuleRow>): (idx: Index)
  {
    if rows == [] then map[]
    else
      var idx := BuildIndex(rows[..|rows| - 1]);
      var r := rows[|rows| - 1];
      if !Indexable(r) then idx
      else if r.nom in idx then idx[r.nom := idx[r.nom] + [r]]
      else idx[r.nom := [r]]
  }

  /** The index files every indexable row under its exact name, once, in
      file order, and holds nothing else. */
  lemma {:induction false} BuildIndexIsFilter(rows: seq<RuleRow>)
    ensures forall k :: k in BuildIndex(rows) <==> RowsNamed(rows, k) != []
    ensures forall k :: k in BuildIndex(rows) ==> BuildIndex(rows)[k] == RowsNamed(rows, k)
    decreases |rows|
  {
    if rows != [] {
      var init := rows[..|rows| - 1];
      var r := rows[|rows| - 1];
      assert rows == init + [r];
      BuildIndexIsFilter(init);
      forall k {
        RowsNamedSnoc(init, r, k);
      }
    }
  }

  lemma BuildIndexWellFormed(rows: seq<RuleRow>)
    ensures WellFormedIndex(BuildIndex(rows))
  {
    BuildIndexIsFilter(rows);
    var idx: Index := BuildIndex(rows);
    forall k | k in idx
      ensures forall j :: 0 <= j < |idx[k]| ==> idx[k][j].nom == k && Indexable(idx[k][j])
    {
      RowsNamedAreNamed(rows, k);
    }
  }

  lemma {:induction false} RowsNamedAreNamed(rows: seq<RuleRow>, k: string)
    ensures forall j :: 0 <= j < |RowsNamed(rows, k)| ==> RowsNamed(rows, k)[j].nom == k && Indexable(RowsNamed(rows, k)[j])
    decreases |rows|
  {
    if rows != [] {
      RowsNamedAreNamed(rows[1..], k);
    }
  }

  /** `indexRulesFromCSV`. */
  function IndexRules(csvText: string): (idx: Index)
    ensures WellFormedIndex(idx)
    ensures forall k :: k in idx <==> RowsNamed(ParseTable(csvText), k) != []
    ensures forall k :: k in idx ==> idx[k] == RowsNamed(ParseTable(csvText), k)
  {
    var rows := ParseTable(csvText);
    BuildIndexIsFilter(rows);
    BuildIndexWellFormed(rows);
    BuildIndex(rows)
  }

  /** The cleaned header cells of a table. */
  function TableHeader(csvText: string): seq<string> {
    HeaderCells(TableLines(csvText)[0])
  }

  /** A column absent from the header reads as '' on every row; nothing is
      raised. */
  lemma AbsentColumnsReadEmpty(csvText: string)
    ensures AdmColumn !in TableHeader(csvText) ==> forall r :: r in ParseTable(csvText) ==> r.adm == ""
    ensures NomColumn !in TableHeader(csvText) ==> forall r :: r in ParseTable(csvText) ==> r.nom == ""
    ensures CodeColumn !in TableHeader(csvText) ==> forall r :: r in ParseTable(csvText) ==> r.code == ""
    ensures TypeColumn !in TableHeader(csvText) ==> forall r :: r in ParseTable(csvText) ==> r.statusType == ""
    ensures LabelColumn !in TableHeader(csvText) ==> forall r :: r in ParseTable(csvText) ==> r.statusLabel == ""
  {
    var lines := TableLines(csvText);
    var c := HeaderColumns(lines[0]);
    assert ParseTable(csvText) == ParseRows(lines[1..], c);
    forall r | r in ParseTable(csvText)
      ensures c.adm == -1 ==> r.adm == ""
      ensures c.nom == -1 ==> r.nom == ""
      ensures c.code == -1 ==> r.code == ""
      ensures c.statusType == -1 ==> r.statusType == ""
      ensures c.statusLabel == -1 ==> r.statusLabel == ""
    {
      MissingColumnReadsEmpty(lines[1..], c, r);
    }
  }

  /** Without a name or a status-type column nothing is indexed. */
  lemma NoIndexWithoutNameOrType(csvText: string)
    requires NomColumn !in TableHeader(csvText) || TypeColumn !in TableHeader(csvText)
    ensures IndexRules(csvText) == map[]
  {
    var rows := ParseTable(csvText);
    AbsentColumnsReadEmpty(csvText);
    forall k ensures RowsNamed(rows, k) == [] {
      NothingIndexable(rows, k);
    }
  }

  /** A column position of -1 reads as '' on every row. */
  lemma MissingColumnReadsEmpty(lines: seq<string>, c: Columns, r: RuleRow)
    requires r in ParseRows(lines, c)
    ensures c.adm == -1 ==> r.adm == ""
    ensures c.nom == -1 ==> r.nom == ""
    ensures c.code == -1 ==> r.code == ""
    ensures c.statusType == -1 ==> r.statusType == ""
    ensures c.statusLabel == -1 ==> r.statusLabel == ""
  {
    var rows := ParseRows(lines, c);
    var i :| 0 <= i < |rows| && rows[i] == r;
    assert r == ParseRow(lines[i], c);
  }

  lemma {:induction false} NothingIndexable(rows: seq<RuleRow>, k: string)
    requires forall r :: r in rows ==> !Indexable(r)
    ensures RowsNamed(rows, k) == []
    decreases |rows|
  {
    if rows != [] {
      NothingIndexable(rows[1..], k);
    }
  }
}
