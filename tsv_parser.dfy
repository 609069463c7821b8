/**
 * Assembly of the HED string of each row of a BIDS TSV file (the parser half
 * of the TSV validator): the HED-relevant columns are transposed into rows,
 * each row's cells are mapped to sidecar HED strings, column splices are
 * substituted and cleaned up, and the non-empty pieces are joined with commas.
 *
 * JavaScript `Map`s whose iteration order matters are sequences of entries in
 * insertion order; the column map of a row, which is only looked up, is a
 * Dafny `map`.  The HED string parser is a parameter.
 */
module TsvParser {
  import opened Wrappers
  import opened JsStrings
  import opened TsvSplices

  // ---------------------------------------------------------------------------
  // Maps with insertion order
  // ---------------------------------------------------------------------------

  predicate DistinctKeys<V>(entries: seq<(string, V)>) {
    forall i, j | 0 <= i < j < |entries| :: entries[i].0 != entries[j].0
  }

  predicate HasKey<V>(entries: seq<(string, V)>, key: string) {
    exists i | 0 <= i < |entries| :: entries[i].0 == key
  }

  /** The position of `key`, or -1. */
  function KeyIndex<V>(entries: seq<(string, V)>, key: string): (r: int)
    ensures -1 <= r < |entries|
    ensures r >= 0 ==> entries[r].0 == key
    ensures r < 0 <==> !HasKey(entries, key)
    ensures forall i | 0 <= i < r :: entries[i].0 != key
  {
    if entries == [] then -1
    else if entries[0].0 == key then 0
    else
      var k := KeyIndex(entries[1..], key);
      assert forall i | 1 <= i < |entries| :: entries[1..][i - 1] == entries[i];
      if k < 0 then -1 else k + 1
  }

  /** `Map.prototype.set`: the value of an existing key is replaced where it
      stands; a new key is appended. */
  function MapSet<V>(entries: seq<(string, V)>, key: string, value: V): seq<(string, V)> {
    var k := KeyIndex(entries, key);
    if k < 0 then entries + [(key, value)] else entries[k := (key, value)]
  }

  // ---------------------------------------------------------------------------
  // Columns to rows
  // ---------------------------------------------------------------------------

  /** A TSV column: its header and its cells from the first data row on. */
  type Column = (string, seq<string>)

  /** The cells of one row, by column, in column order. */
  type Row = seq<(string, string)>

  function Max(a: nat, b: nat): nat {
    if a < b then b else a
  }

  /** The columns whose HED strings are assembled: those described in the
      sidecar's HED data, `HED` and `onset`, in file order. */
  function HedColumns(parsedTsv: seq<Column>, hedData: set<string>): (r: seq<Column>)
    ensures forall c | c in r :: c in parsedTsv
  {
    if parsedTsv == [] then []
    else
      var c := parsedTsv[|parsedTsv| - 1];
      HedColumns(parsedTsv[..|parsedTsv| - 1], hedData)
      + (if c.0 in hedData || c.0 == "HED" || c.0 == "onset" then [c] else [])
  }

  /** A column is kept exactly when its header is HED-relevant. */
  lemma {:induction false} HedColumnsMembers(parsedTsv: seq<Column>, hedData: set<string>, c: Column)
    ensures c in HedColumns(parsedTsv, hedData) <==> c in parsedTsv && (c.0 in hedData || c.0 == "HED" || c.0 == "onset")
  {
    if parsedTsv != [] {
      var init := parsedTsv[..|parsedTsv| - 1];
      HedColumnsMembers(init, hedData, c);
      assert parsedTsv == init + [parsedTsv[|parsedTsv| - 1]];
    }
  }

  /** Keeping some columns keeps their headers distinct. */
  lemma {:induction false} HedColumnsDistinct(parsedTsv: seq<Column>, hedData: set<string>)
    requires DistinctKeys(parsedTsv)
    ensures DistinctKeys(HedColumns(parsedTsv, hedData))
  {
    if parsedTsv != [] {
      var init := parsedTsv[..|parsedTsv| - 1];
      var c := parsedTsv[|parsedTsv| - 1];
      HedColumnsDistinct(init, hedData);
      var front := HedColumns(init, hedData);
      forall d | d in front
        ensures d.0 != c.0
      {
        var j :| 0 <= j < |init| && init[j] == d;
        assert parsedTsv[j] == d;
      }
    }
  }

  /** The rows after one more column has been spread over them: cell `i` of
      the column is set in row `i`, creating the row when it does not exist. */
  function AddColumn(rows: seq<Row>, header: string, data: seq<string>): (r: seq<Row>)
    ensures |r| == Max(|rows|, |data|)
  {
    seq(Max(|rows|, |data|), i requires 0 <= i < Max(|rows|, |data|) =>
      var row := if i < |rows| then rows[i] else [];
      if i < |data| then MapSet(row, header, data[i]) else row)
  }

  /** One more cell of a column: the row it belongs to is added when missing,
      then the cell is set in it. */
  lemma AddColumnStep(rows0: seq<Row>, header: string, data: seq<string>, index: nat)
    requires index < |data|
    ensures var rows := AddColumn(rows0, header, data[..index]);
      var padded := if index == |rows| then rows + [[]] else rows;
      && index < |padded|
      && padded[index := MapSet(padded[index], header, data[index])] == AddColumn(rows0, header, data[..index + 1])
  {
    var rows := AddColumn(rows0, header, data[..index]);
    var padded := if index == |rows| then rows + [[]] else rows;
    var next := AddColumn(rows0, header, data[..index + 1]);
    var updated := padded[index := MapSet(padded[index], header, data[index])];
    assert |updated| == |next|;
    forall i | 0 <= i < |next|
      ensures updated[i] == next[i]
    {
      if i < index {
        assert data[..index][i] == data[..index + 1][i];
      }
    }
  }

  /** The rows of `_generateHedRows`, column after column. */
  function Transpose(columns: seq<Column>): seq<Row> {
    if columns == [] then []
    else
      var c := columns[|columns| - 1];
      AddColumn(Transpose(columns[..|columns| - 1]), c.0, c.1)
  }

  /** The length of the longest column. */
  function MaxLength(columns: seq<Column>): nat {
    if columns == [] then 0 else Max(MaxLength(columns[..|columns| - 1]), |columns[|columns| - 1].1|)
  }

  /** Reference definition of row `i`: one cell for every column that has an
      `i`-th cell, in column order. */
  function RowAt(columns: seq<Column>, i: nat): Row {
    if columns == [] then []
    else
      var c := columns[|columns| - 1];
      RowAt(columns[..|columns| - 1], i) + (if i < |c.1| then [(c.0, c.1[i])] else [])
  }

  lemma {:induction false} RowAtKeys(columns: seq<Column>, i: nat, key: string)
    ensures HasKey(RowAt(columns, i), key) ==> HasKey(columns, key)
  {
    if columns != [] && HasKey(RowAt(columns, i), key) {
      var init := columns[..|columns| - 1];
      var c := columns[|columns| - 1];
      var row := RowAt(columns, i);
      var j :| 0 <= j < |row| && row[j].0 == key;
      if j < |RowAt(init, i)| {
        assert RowAt(init, i)[j] == row[j];
        RowAtKeys(init, i, key);
        var k :| 0 <= k < |init| && init[k].0 == key;
        assert columns[k] == init[k];
      } else {
        assert columns[|columns| - 1].0 == key;
      }
    }
  }

  lemma {:induction false} RowAtBeyond(columns: seq<Column>, i: nat)
    requires MaxLength(columns) <= i
    ensures RowAt(columns, i) == []
  {
    if columns != [] {
      RowAtBeyond(columns[..|columns| - 1], i);
    }
  }

  /** Transposition: there are as many rows as the longest column has cells,
      and row `i` holds, in column order, the `i`-th cell of every column that
      has one. */
  lemma {:induction false} TransposeRows(columns: seq<Column>)
    requires DistinctKeys(columns)
    ensures |Transpose(columns)| == MaxLength(columns)
    ensures forall i | 0 <= i < |Transpose(columns)| :: Transpose(columns)[i] == RowAt(columns, i)
  {
    if columns != [] {
      var init := columns[..|columns| - 1];
      var c := columns[|columns| - 1];
      assert DistinctKeys(init);
      TransposeRows(init);
      var rows0 := Transpose(init);
      forall i | 0 <= i < |Transpose(columns)|
        ensures Transpose(columns)[i] == RowAt(columns, i)
      {
        var row := if i < |rows0| then rows0[i] else [];
        if i >= |rows0| {
          RowAtBeyond(init, i);
        }
        assert row == RowAt(init, i);
        if i < |c.1| {
          forall k | 0 <= k < |init|
            ensures init[k].0 != c.0
          {
            assert columns[k] == init[k];
          }
          RowAtKeys(init, i, c.0);
        }
      }
    }
  }

  // ---------------------------------------------------------------------------
  // Sidecar HED data and the column map of a row
  // ---------------------------------------------------------------------------

  /** The parsed sidecar HED data of one column: a value column's string with
      its `#` placeholder, a categorical column's string per level, or another
      kind of entry. */
  datatype SidecarEntry =
    | ValueColumn(hedString: string)
    | CategoricalColumn(levels: map<string, string>)
    | OtherEntry

  /** The merged sidecar of a TSV file, as far as row assembly uses it. */
  datatype Sidecar = Sidecar(
    hedData: set<string>,
    hasHedData: bool,
    parsedHedData: seq<(string, SidecarEntry)>,
    columnSpliceReferences: set<string>,
    columnSpliceMapping: seq<string>)

  /** The `TypeError` thrown when a categorical column's cell is not one of
      its levels (`columnValues.get(value)` is `undefined`). */
  datatype ColumnError = MissingLevel(column: string, value: string)

  /** The value of a cell, when the row has the column. */
  function Cell(row: Row, column: string): Option<string> {
    var k := KeyIndex(row, column);
    if k < 0 then None else Some(row[k].1)
  }

  /** The map a row starts from: its `HED` cell, verbatim. */
  function HedSeed(row: Row): map<string, string> {
    if Cell(row, "HED").Some? then map["HED" := Cell(row, "HED").value] else map[]
  }

  /** The string one sidecar entry gives a non-empty cell: the value column's
      string with its first `#` replaced by the cell, or the level's string;
      another kind of entry gives nothing. */
  function EntryValue(entry: SidecarEntry, value: string): Result<Option<string>, string> {
    match entry
    case ValueColumn(template) => Success(Some(ReplaceFirstExpanding(template, '#', value)))
    case CategoricalColumn(levels) => if value in levels then Success(Some(levels[value])) else Failure(value)
    case OtherEntry => Success(None)
  }

  /** One iteration of the sidecar loop of `_getColumnMapping`. */
  function MapColumn(columnMap: map<string, string>, row: Row, column: string, entry: SidecarEntry)
    : Result<map<string, string>, ColumnError>
  {
    var cell := Cell(row, column);
    if cell.None? then Success(columnMap)
    else if cell.value == "n/a" || cell.value == "" then Success(columnMap[column := ""])
    else match EntryValue(entry, cell.value)
      case Failure(v) => Failure(MissingLevel(column, v))
      case Success(None) => Success(columnMap)
      case Success(Some(s)) => Success(columnMap[column := s])
  }

  /** The sidecar loop over the first entries. */
  function MapColumns(row: Row, entries: seq<(string, SidecarEntry)>): Result<map<string, string>, ColumnError> {
    if entries == [] then Success(HedSeed(row))
    else
      var e := entries[|entries| - 1];
      match MapColumns(row, entries[..|entries| - 1])
      case Failure(err) => Failure(err)
      case Success(m) => MapColumn(m, row, e.0, e.1)
  }

  /** `_getColumnMapping`: without sidecar HED data only `HED` is mapped. */
  function ColumnMapping(row: Row, sidecar: Sidecar): Result<map<string, string>, ColumnError> {
    if sidecar.hasHedData then MapColumns(row, sidecar.parsedHedData) else Success(HedSeed(row))
  }

  /** What the column map holds for `column` when the mapping succeeds: `''`
      for an empty or `n/a` cell of a sidecar column, the entry's string for
      another cell of a value or categorical column, and otherwise the `HED`
      cell itself for `HED`. */
  function ExpectedValue(row: Row, entries: seq<(string, SidecarEntry)>, column: string): Option<string> {
    var k := KeyIndex(entries, column);
    var cell := Cell(row, column);
    if k >= 0 && cell.Some? && (cell.value == "" || cell.value == "n/a") then Some("")
    else if k >= 0 && cell.Some? && EntryValue(entries[k].1, cell.value).Success?
            && EntryValue(entries[k].1, cell.value).value.Some? then
      EntryValue(entries[k].1, cell.value).value
    else if column == "HED" then cell
    else None
  }

  function Lookup(m: map<string, string>, key: string): Option<string> {
    if key in m then Some(m[key]) else None
  }

  lemma KeyIndexSnoc<V>(entries: seq<(string, V)>, e: (string, V), key: string)
    ensures KeyIndex(entries + [e], key)
         == if KeyIndex(entries, key) >= 0 then KeyIndex(entries, key)
            else if e.0 == key then |entries| else -1
  {
    var all := entries + [e];
    var k := KeyIndex(entries, key);
    if k >= 0 {
      assert all[k] == entries[k];
      assert forall i | 0 <= i < k :: all[i] == entries[i];
    } else if e.0 == key {
      assert all[|entries|].0 == key;
      assert forall i | 0 <= i < |entries| :: all[i] == entries[i];
    } else {
      assert forall i | 0 <= i < |all| :: all[i].0 != key by {
        forall i | 0 <= i < |all|
          ensures all[i].0 != key
        {
          if i < |entries| {
            assert all[i] == entries[i];
          }
        }
      }
    }
  }

  /** Reference reading of `_getColumnMapping`: with distinct sidecar column
      names, every column's value in a successful mapping is `ExpectedValue`. */
  lemma {:induction false} MapColumnsValues(row: Row, entries: seq<(string, SidecarEntry)>, m: map<string, string>)
    requires DistinctKeys(entries)
    requires MapColumns(row, entries) == Success(m)
    ensures forall column :: Lookup(m, column) == ExpectedValue(row, entries, column)
  {
    if entries != [] {
      var init := entries[..|entries| - 1];
      var e := entries[|entries| - 1];
      assert entries == init + [e];
      assert DistinctKeys(init);
      var m0 := MapColumns(row, init).value;
      MapColumnsValues(row, init, m0);
      forall column
        ensures Lookup(m, column) == ExpectedValue(row, entries, column)
      {
        if column == e.0 {
          MapColumnNew(m0, m, row, init, e);
        } else {
          MapColumnOther(m0, m, row, init, e, column);
        }
      }
    }
  }

  lemma MapColumnNew(m0: map<string, string>, m: map<string, string>, row: Row,
                     init: seq<(string, SidecarEntry)>, e: (string, SidecarEntry))
    requires DistinctKeys(init + [e])
    requires Lookup(m0, e.0) == ExpectedValue(row, init, e.0)
    requires MapColumn(m0, row, e.0, e.1) == Success(m)
    ensures Lookup(m, e.0) == ExpectedValue(row, init + [e], e.0)
  {
    var entries := init + [e];
    forall i | 0 <= i < |init|
      ensures init[i].0 != e.0
    {
      assert entries[i] == init[i];
      assert entries[|init|] == e;
    }
    KeyIndexSnoc(init, e, e.0);
    assert KeyIndex(init, e.0) < 0;
    assert KeyIndex(entries, e.0) == |init|;
    assert entries[|init|] == e;
  }

  lemma MapColumnOther(m0: map<string, string>, m: map<string, string>, row: Row,
                       init: seq<(string, SidecarEntry)>, e: (string, SidecarEntry), column: string)
    requires column != e.0
    requires Lookup(m0, column) == ExpectedValue(row, init, column)
    requires MapColumn(m0, row, e.0, e.1) == Success(m)
    ensures Lookup(m, column) == ExpectedValue(row, init + [e], column)
  {
    var entries := init + [e];
    KeyIndexSnoc(init, e, column);
    assert Lookup(m, column) == Lookup(m0, column);
    var k := KeyIndex(init, column);
    if k >= 0 {
      assert entries[k] == init[k];
    }
  }

  /** Without sidecar HED data, only the `HED` cell is mapped, verbatim. */
  lemma NoHedDataOnlyHed(row: Row, sidecar: Sidecar)
    requires !sidecar.hasHedData
    ensures ColumnMapping(row, sidecar).Success?
    ensures forall column :: Lookup(ColumnMapping(row, sidecar).value, column) == (if column == "HED" then Cell(row, "HED") else None)
  {
  }

  /** A categorical column whose cell in the row is neither empty, `n/a` nor
      one of its levels. */
  predicate LevelMissing(row: Row, entry: (string, SidecarEntry)) {
    var cell := Cell(row, entry.0);
    entry.1.CategoricalColumn? && cell.Some? && cell.value != "" && cell.value != "n/a"
    && cell.value !in entry.1.levels
  }

  /** The mapping throws exactly when some categorical cell has no level. */
  lemma {:induction false} MapColumnsFails(row: Row, entries: seq<(string, SidecarEntry)>)
    ensures MapColumns(row, entries).Failure? <==> exists k | 0 <= k < |entries| :: LevelMissing(row, entries[k])
  {
    if entries != [] {
      var init := entries[..|entries| - 1];
      MapColumnsFails(row, init);
      assert forall k | 0 <= k < |init| :: entries[k] == init[k];
      if exists k | 0 <= k < |entries| :: LevelMissing(row, entries[k]) {
        var k :| 0 <= k < |entries| && LevelMissing(row, entries[k]);
        if k < |init| {
          assert LevelMissing(row, init[k]);
        }
      }
    }
  }

  // ---------------------------------------------------------------------------
  // Splicing and joining
  // ---------------------------------------------------------------------------

  /** `spliceValues`: the splice columns in order, each replaced by its spliced
      and cleaned string as the map stands at that point. */
  function Spliced(cells: map<string, string>, columns: seq<string>): (r: map<string, string>)
    ensures r.Keys == cells.Keys
  {
    if columns == [] then cells
    else
      var m := Spliced(cells, columns[..|columns| - 1]);
      var c := columns[|columns| - 1];
      if c in m then m[c := TsvSplices.ReplaceSplices(m[c], m)] else m
  }

  /** Columns without splices keep their value. */
  lemma {:induction false} SplicedOthers(cells: map<string, string>, columns: seq<string>, column: string)
    requires column in cells && column !in columns
    ensures Spliced(cells, columns)[column] == cells[column]
  {
    if columns != [] {
      SplicedOthers(cells, columns[..|columns| - 1], column);
    }
  }

  /** The pieces of a row's HED string, in the row's column order: the mapped
      string of every column that is not a splice target and whose cell and
      mapped string are both outside the null set. */
  function RowParts(row: Row, cells: map<string, string>, spliceReferences: set<string>): (parts: seq<string>)
    ensures forall k | 0 <= k < |parts| :: !InNullSet(parts[k])
  {
    if row == [] then []
    else
      var c := row[|row| - 1];
      RowParts(row[..|row| - 1], cells, spliceReferences)
      + (if c.0 in spliceReferences || InNullSet(c.1) || c.0 !in cells || InNullSet(cells[c.0]) then []
         else [cells[c.0]])
  }

  /** A part is taken from a column exactly when it qualifies. */
  lemma {:induction false} RowPartsMembers(row: Row, cells: map<string, string>, spliceReferences: set<string>, part: string)
    ensures part in RowParts(row, cells, spliceReferences)
        <==> exists k | 0 <= k < |row| :: row[k].0 !in spliceReferences && !InNullSet(row[k].1)
                                        && row[k].0 in cells && cells[row[k].0] == part && !InNullSet(part)
  {
    if row != [] {
      var init := row[..|row| - 1];
      RowPartsMembers(init, cells, spliceReferences, part);
      assert forall k | 0 <= k < |init| :: row[k] == init[k];
      if exists k | 0 <= k < |row| :: row[k].0 !in spliceReferences && !InNullSet(row[k].1)
                                    && row[k].0 in cells && cells[row[k].0] == part && !InNullSet(part) {
        var k :| 0 <= k < |row| && row[k].0 !in spliceReferences && !InNullSet(row[k].1)
                                && row[k].0 in cells && cells[row[k].0] == part && !InNullSet(part);
        if k < |init| {
          assert init[k] == row[k];
        }
      }
    }
  }

  lemma {:induction false} JoinHasSeparator(parts: seq<string>)
    requires |parts| >= 2
    ensures ',' in Join(parts, ",")
  {
    assert Join(parts, ",") == parts[0] + "," + Join(parts[1..], ",");
    assert (parts[0] + "," + Join(parts[1..], ","))[|parts[0]|] == ',';
  }

  /** The joined string is empty exactly when there are no parts, and it is
      never `n/a`: the `n/a` test of `_parseHedRow` cannot succeed. */
  lemma JoinedRowString(parts: seq<string>)
    requires forall k | 0 <= k < |parts| :: !InNullSet(parts[k])
    ensures Join(parts, ",") == "" <==> parts == []
    ensures Join(parts, ",") != "n/a"
  {
    if |parts| >= 2 {
      JoinHasSeparator(parts);
      assert ',' !in "n/a";
      assert |Join(parts, ",")| > 0;
    }
  }

  /** `_parseHedRow` without the element: the row's HED string, or nothing
      when it is empty or `n/a`. */
  function RowHedString(row: Row, sidecar: Sidecar): Result<Option<string>, ColumnError> {
    match ColumnMapping(row, sidecar)
    case Failure(e) => Failure(e)
    case Success(m) =>
      var s := Join(RowParts(row, Spliced(m, sidecar.columnSpliceMapping), sidecar.columnSpliceReferences), ",");
      if s == "" || s == "n/a" then Success(None) else Success(Some(s))
  }

  /** A row yields no element exactly when it contributes no part. */
  lemma RowDropped(row: Row, sidecar: Sidecar)
    requires ColumnMapping(row, sidecar).Success?
    ensures var cells := Spliced(ColumnMapping(row, sidecar).value, sidecar.columnSpliceMapping);
      RowHedString(row, sidecar) == Success(None) <==> RowParts(row, cells, sidecar.columnSpliceReferences) == []
  {
    var cells := Spliced(ColumnMapping(row, sidecar).value, sidecar.columnSpliceMapping);
    JoinedRowString(RowParts(row, cells, sidecar.columnSpliceReferences));
  }

  /** `_parseHedRows` without the elements: the HED string, TSV line (row
      index + 2) and onset cell of every row that yields one, in order; the
      first row whose mapping throws ends it. */
  function HedRows(rows: seq<Row>, sidecar: Sidecar): Result<seq<(string, nat, Option<string>)>, ColumnError> {
    if rows == [] then Success([])
    else
      match HedRows(rows[..|rows| - 1], sidecar)
      case Failure(e) => Failure(e)
      case Success(done) =>
        match RowHedString(rows[|rows| - 1], sidecar)
        case Failure(e) => Failure(e)
        case Success(None) => Success(done)
        case Success(Some(s)) => Success(done + [(s, |rows| + 1, Cell(rows[|rows| - 1], "onset"))])
  }

  /** The rows of a TSV file that yield a HED string: its HED columns spread
      over rows, then assembled row by row. */
  function TsvHedRows(tsvFile: (seq<Column>, Sidecar)): Result<seq<(string, nat, Option<string>)>, ColumnError> {
    HedRows(Transpose(HedColumns(tsvFile.0, tsvFile.1.hedData)), tsvFile.1)
  }

  /** Lines are increasing: the elements come out in row order. */
  lemma {:induction false} HedRowsOrdered(rows: seq<Row>, sidecar: Sidecar)
    requires HedRows(rows, sidecar).Success?
    ensures var r := HedRows(rows, sidecar).value;
      (forall k | 0 <= k < |r| :: 2 <= r[k].1 <= |rows| + 1)
      && (forall j, k | 0 <= j < k < |r| :: r[j].1 < r[k].1)
  {
    if rows != [] {
      HedRowsOrdered(rows[..|rows| - 1], sidecar);
    }
  }

  // ---------------------------------------------------------------------------
  // Parsed strings, issues and elements
  // ---------------------------------------------------------------------------

  datatype Severity = Error | Warning

  /** An issue: its code, its severity and the HED string it is about. */
  datatype Issue = Issue(code: string, severity: Severity, hedString: string)

  /** What the validation stages need of a parsed HED string: the names of its
      tags' schema entries, those of its top-level tags, and its column
      splices. */
  datatype ParsedString = ParsedString(hedString: string, tagNames: seq<string>,
                                       topLevelTagNames: seq<string>, columnSplices: seq<string>)

  /** The result of `parseHedString`: the parsed string (or none), the errors
      and the warnings. */
  datatype ParseResult = ParseResult(parsed: Option<ParsedString>, errors: seq<Issue>, warnings: seq<Issue>)

  /** A row of the file with a non-empty HED string.  Its onset is the row's
      `onset` cell, when it has one. */
  class TsvElement {
    const hedString: string
    const tsvLine: nat
    const rowCells: Row
    const onset: Option<string>
    var parsedHedString: Option<ParsedString>

    constructor (hedString: string, tsvLine: nat, rowCells: Row)
      ensures this.hedString == hedString && this.tsvLine == tsvLine && this.rowCells == rowCells
      ensures onset == Cell(rowCells, "onset") && parsedHedString == None
    {
      this.hedString := hedString;
      this.tsvLine := tsvLine;
      this.rowCells := rowCells;
      this.onset := Cell(rowCells, "onset");
      this.parsedHedString := None;
    }
  }

  function HedStrings(elements: seq<TsvElement>): seq<string> {
    seq(|elements|, k requires 0 <= k < |elements| => elements[k].hedString)
  }

  /** The errors, then separately the warnings, of parsing each string, in order. */
  function ParseErrors(strings: seq<string>, parse: string -> ParseResult): seq<Issue> {
    if strings == [] then [] else ParseErrors(strings[..|strings| - 1], parse) + parse(strings[|strings| - 1]).errors
  }

  function ParseWarnings(strings: seq<string>, parse: string -> ParseResult): seq<Issue> {
    if strings == [] then [] else ParseWarnings(strings[..|strings| - 1], parse) + parse(strings[|strings| - 1]).warnings
  }

  /** No issue is lost or invented: an error of the file is an error of one
      of its strings. */
  lemma {:induction false} ParseErrorsMembers(strings: seq<string>, parse: string -> ParseResult, issue: Issue)
    ensures issue in ParseErrors(strings, parse) <==> exists k | 0 <= k < |strings| :: issue in parse(strings[k]).errors
  {
    if strings != [] {
      var init := strings[..|strings| - 1];
      ParseErrorsMembers(init, parse, issue);
      assert forall k | 0 <= k < |init| :: strings[k] == init[k];
      if exists k | 0 <= k < |strings| :: issue in parse(strings[k]).errors {
        var k :| 0 <= k < |strings| && issue in parse(strings[k]).errors;
        if k < |init| {
          assert init[k] == strings[k];
        }
      }
    }
  }

  /** The column map of one row, updated in place by `spliceValues`. */
  class ColumnMap {
    var cells: map<string, string>

    constructor (cells: map<string, string>)
      ensures this.cells == cells
    {
      this.cells := cells;
    }
  }

  /** Basic parsing and splicing of a TSV file's HED data. */
  class BidsHedTsvParser {
    const tsvFile: (seq<Column>, Sidecar)
    const parseHedString: string -> ParseResult

    constructor (parsedTsv: seq<Column>, sidecar: Sidecar, parseHedString: string -> ParseResult)
      ensures tsvFile == (parsedTsv, sidecar) && this.parseHedString == parseHedString
    {
      tsvFile := (parsedTsv, sidecar);
      this.parseHedString := parseHedString;
    }

    /** `_generateHedRows`: the HED-relevant columns spread over rows. */
    method GenerateHedRows() returns (rows: seq<Row>)
      ensures rows == Transpose(HedColumns(tsvFile.0, tsvFile.1.hedData))
      ensures DistinctKeys(tsvFile.0) ==>
        var columns := HedColumns(tsvFile.0, tsvFile.1.hedData);
        |rows| == MaxLength(columns) && forall i | 0 <= i < |rows| :: rows[i] == RowAt(columns, i)
    {
      var columns := HedColumns(tsvFile.0, tsvFile.1.hedData);
      rows := [];
      for c := 0 to |columns|
        invariant rows == Transpose(columns[..c])
      {
        var header, data := columns[c].0, columns[c].1;
        ghost var rows0 := rows;
        for index := 0 to |data|
          invariant rows == AddColumn(rows0, header, data[..index])
        {
          AddColumnStep(rows0, header, data, index);
          if index == |rows| {
            rows := rows + [[]];
          }
          rows := rows[index := MapSet(rows[index], header, data[index])];
        }
        assert data[..|data|] == data;
        assert columns[..c + 1][..c] == columns[..c];
      }
      assert columns[..|columns|] == columns;
      if DistinctKeys(tsvFile.0) {
        HedColumnsDistinct(tsvFile.0, tsvFile.1.hedData);
        TransposeRows(columns);
      }
    }

    /** `_getColumnMapping`: a new column map for the row, or the `TypeError`
        of a categorical cell without a level. */
    method GetColumnMapping(rowCells: Row) returns (r: Result<ColumnMap, ColumnError>)
      ensures r.Success? <==> ColumnMapping(rowCells, tsvFile.1).Success?
      ensures r.Success? ==> fresh(r.value) && r.value.cells == ColumnMapping(rowCells, tsvFile.1).value
      ensures r.Failure? ==> r.error == ColumnMapping(rowCells, tsvFile.1).error
    {
      var sidecar := tsvFile.1;
      var cells: map<string, string> := map[];
      var hed := Cell(rowCells, "HED");
      if hed.Some? {
        cells := cells["HED" := hed.value];
      }
      if !sidecar.hasHedData {
        var columnMap := new ColumnMap(cells);
        return Success(columnMap);
      }
      var entries := sidecar.parsedHedData;
      for k := 0 to |entries|
        invariant MapColumns(rowCells, entries[..k]) == Success(cells)
      {
        assert entries[..k + 1][..k] == entries[..k];
        var columnName, columnValues := entries[k].0, entries[k].1;
        var rowColumnValue := Cell(rowCells, columnName);
        if rowColumnValue.None? {
          continue;
        }
        if rowColumnValue.value == "n/a" || rowColumnValue.value == "" {
          cells := cells[columnName := ""];
          continue;
        }
        match columnValues {
          case ValueColumn(template) =>
            cells := cells[columnName := ReplaceFirstExpanding(template, '#', rowColumnValue.value)];
          case CategoricalColumn(levels) =>
            if rowColumnValue.value !in levels {
              MapColumnsStops(rowCells, entries, k + 1);
              assert entries[..|entries|] == entries;
              return Failure(MissingLevel(columnName, rowColumnValue.value));
            }
            cells := cells[columnName := levels[rowColumnValue.value]];
          case OtherEntry =>
        }
      }
      assert entries[..|entries|] == entries;
      var columnMap := new ColumnMap(cells);
      return Success(columnMap);
    }

    /** `spliceValues`: every splice column present in the map is replaced, in
        place, by its spliced and cleaned string. */
    method SpliceValues(columnMap: ColumnMap)
      modifies columnMap
      ensures columnMap.cells == Spliced(old(columnMap.cells), tsvFile.1.columnSpliceMapping)
    {
      var columns := tsvFile.1.columnSpliceMapping;
      for k := 0 to |columns|
        invariant columnMap.cells == Spliced(old(columnMap.cells), columns[..k])
      {
        assert columns[..k + 1][..k] == columns[..k];
        var column := columns[k];
        if column !in columnMap.cells {
          continue;
        }
        var unspliced := columnMap.cells[column];
        var result := ReplaceSplices(unspliced, columnMap);
        columnMap.cells := columnMap.cells[column := result];
      }
      assert columns[..|columns|] == columns;
    }

    /** `_replaceSplices`: substitution of every splice, then cleanup. */
    method ReplaceSplices(unspliced: string, columnMap: ColumnMap) returns (r: string)
      ensures r == TsvSplices.ReplaceSplices(unspliced, columnMap.cells)
    {
      var result := Substitute(unspliced, columnMap.cells);
      r := SpliceCleanup(result);
    }

    /** `_spliceCleanup`: empty groups are removed until none is left, then
        the comma runs at both ends, then doubled commas.  Only parentheses,
        commas and white space are deleted. */
    method SpliceCleanup(spliced: string) returns (result: string)
      ensures result == Cleanup(spliced)
      ensures Content(result) == Content(spliced)
    {
      result := spliced;
      while HasEmptyGroup(result)
        invariant RemoveEmptyGroups(result) == RemoveEmptyGroups(spliced)
        decreases |result|
      {
        RemoveShrinks(result, 0);
        result := RemoveEmptyGroupsFrom(result, 0);
      }
      result := StripLeading(result);
      result := StripTrailing(result);
      result := CollapseCommas(result);
      CleanupContent(spliced);
    }

    /** `_parseHedRow`: the row's element, or none when its HED string is
        empty. */
    method ParseHedRow(rowCells: Row, tsvLine: nat) returns (r: Result<Option<TsvElement>, ColumnError>)
      ensures r.Failure? <==> RowHedString(rowCells, tsvFile.1).Failure?
      ensures r.Failure? ==> r.error == RowHedString(rowCells, tsvFile.1).error
      ensures r.Success? ==> (r.value.None? <==> RowHedString(rowCells, tsvFile.1).value.None?)
      ensures r.Success? && r.value.Some? ==>
        var e := r.value.value;
        fresh(e) && e.hedString == RowHedString(rowCells, tsvFile.1).value.value
        && e.tsvLine == tsvLine && e.rowCells == rowCells && e.onset == Cell(rowCells, "onset")
        && e.parsedHedString == None
    {
      var mapping := GetColumnMapping(rowCells);
      if mapping.Failure? {
        return Failure(mapping.error);
      }
      var columnMap := mapping.value;
      SpliceValues(columnMap);
      var sidecar := tsvFile.1;
      var hedStringParts: seq<string> := [];
      for k := 0 to |rowCells|
        invariant hedStringParts == RowParts(rowCells[..k], columnMap.cells, sidecar.columnSpliceReferences)
      {
        assert rowCells[..k + 1][..k] == rowCells[..k];
        var columnName, columnValue := rowCells[k].0, rowCells[k].1;
        if columnName in sidecar.columnSpliceReferences || InNullSet(columnValue) {
          continue;
        }
        if columnName in columnMap.cells && !InNullSet(columnMap.cells[columnName]) {
          hedStringParts := hedStringParts + [columnMap.cells[columnName]];
        }
      }
      assert rowCells[..|rowCells|] == rowCells;
      var hedString := Join(hedStringParts, ",");
      if hedString == "" || hedString == "n/a" {
        return Success(None);
      }
      var element := new TsvElement(hedString, tsvLine, rowCells);
      return Success(Some(element));
    }

    /** `_parseHedRows`: the elements of the rows that have a HED string, with
        their TSV lines, in row order. */
    method ParseHedRows(tsvHedRows: seq<Row>) returns (r: Result<seq<TsvElement>, ColumnError>)
      ensures r.Failure? <==> HedRows(tsvHedRows, tsvFile.1).Failure?
      ensures r.Failure? ==> r.error == HedRows(tsvHedRows, tsvFile.1).error
      ensures r.Success? ==>
        var expected := HedRows(tsvHedRows, tsvFile.1).value;
        |r.value| == |expected|
        && forall k | 0 <= k < |r.value| ::
             fresh(r.value[k]) && r.value[k].parsedHedString == None
             && (r.value[k].hedString, r.value[k].tsvLine, r.value[k].onset) == expected[k]
    {
      var hedRows: seq<TsvElement> := [];
      for index := 0 to |tsvHedRows|
        invariant HedRows(tsvHedRows[..index], tsvFile.1).Success?
        invariant |hedRows| == |HedRows(tsvHedRows[..index], tsvFile.1).value|
        invariant forall k | 0 <= k < |hedRows| ::
                    fresh(hedRows[k]) && hedRows[k].parsedHedString == None
                    && (hedRows[k].hedString, hedRows[k].tsvLine, hedRows[k].onset)
                       == HedRows(tsvHedRows[..index], tsvFile.1).value[k]
      {
        assert tsvHedRows[..index + 1][..index] == tsvHedRows[..index];
        var hedRow := ParseHedRow(tsvHedRows[index], index + 2);
        if hedRow.Failure? {
          HedRowsStops(tsvHedRows, tsvFile.1, index + 1);
          assert tsvHedRows[..|tsvHedRows|] == tsvHedRows;
          return Failure(hedRow.error);
        }
        if hedRow.value.Some? {
          hedRows := hedRows + [hedRow.value.value];
        }
      }
      assert tsvHedRows[..|tsvHedRows|] == tsvHedRows;
      return Success(hedRows);
    }

    /** `_parseElementStrings`: every element gets its parsed string, and the
        errors and warnings of all of them are gathered in element order. */
    method ParseElementStrings(elements: seq<TsvElement>) returns (errors: seq<Issue>, warnings: seq<Issue>)
      modifies set e | e in elements
      ensures forall k | 0 <= k < |elements| :: elements[k].parsedHedString == parseHedString(elements[k].hedString).parsed
      ensures errors == ParseErrors(HedStrings(elements), parseHedString)
      ensures warnings == ParseWarnings(HedStrings(elements), parseHedString)
    {
      errors, warnings := [], [];
      if |elements| == 0 {
        return;
      }
      for k := 0 to |elements|
        invariant forall j | 0 <= j < k :: elements[j].parsedHedString == parseHedString(elements[j].hedString).parsed
        invariant errors == ParseErrors(HedStrings(elements[..k]), parseHedString)
        invariant warnings == ParseWarnings(HedStrings(elements[..k]), parseHedString)
      {
        assert HedStrings(elements[..k + 1])[..k] == HedStrings(elements[..k]);
        var element := elements[k];
        var result := parseHedString(element.hedString);
        element.parsedHedString := result.parsed;
        errors := errors + result.errors;
        warnings := warnings + result.warnings;
      }
      assert elements[..|elements|] == elements;
    }

    /** `parse`: rows, elements, then their parsed strings and issues. */
    method Parse() returns (r: Result<(seq<TsvElement>, seq<Issue>, seq<Issue>), ColumnError>)
      ensures r.Failure? <==> TsvHedRows(tsvFile).Failure?
      ensures r.Failure? ==> r.error == TsvHedRows(tsvFile).error
      ensures r.Success? ==>
        var elements := r.value.0;
        var expected := TsvHedRows(tsvFile).value;
        |elements| == |expected|
        && (forall k | 0 <= k < |elements| ::
              fresh(elements[k]) && (elements[k].hedString, elements[k].tsvLine, elements[k].onset) == expected[k]
              && elements[k].parsedHedString == parseHedString(elements[k].hedString).parsed)
        && r.value.1 == ParseErrors(HedStrings(elements), parseHedString)
        && r.value.2 == ParseWarnings(HedStrings(elements), parseHedString)
    {
      var tsvHedRows := GenerateHedRows();
      var tsvElements := ParseHedRows(tsvHedRows);
      if tsvElements.Failure? {
        return Failure(tsvElements.error);
      }
      var errors, warnings := ParseElementStrings(tsvElements.value);
      return Success((tsvElements.value, errors, warnings));
    }
  }

  /** Once the mapping fails on a prefix of the entries, it fails on all of them. */
  lemma {:induction false} MapColumnsStops(row: Row, entries: seq<(string, SidecarEntry)>, n: nat)
    requires n <= |entries|
    requires MapColumns(row, entries[..n]).Failure?
    ensures MapColumns(row, entries) == MapColumns(row, entries[..n])
    decreases |entries| - n
  {
    if n < |entries| {
      assert entries[..n + 1][..n] == entries[..n];
      MapColumnsStops(row, entries, n + 1);
    } else {
      assert entries[..n] == entries;
    }
  }

  lemma {:induction false} HedRowsStops(rows: seq<Row>, sidecar: Sidecar, n: nat)
    requires n <= |rows|
    requires HedRows(rows[..n], sidecar).Failure?
    ensures HedRows(rows, sidecar) == HedRows(rows[..n], sidecar)
    decreases |rows| - n
  {
    if n < |rows| {
      assert rows[..n + 1][..n] == rows[..n];
      HedRowsStops(rows, sidecar, n + 1);
    } else {
      assert rows[..n] == rows;
    }
  }
}
