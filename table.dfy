/** The `Table` view component: the rows it derives from the dataset, the
    search query and the country facet; the facet toggle; the selection the
    grid reports; and the CSV text its export builds. */
module Table {
  import opened Text
  import opened Sequences
  import opened GridColumns

  /** One record of the dataset: an object whose properties hold strings,
      keyed by property name (`id`, `jurisdictionCountry`, `title`, ...). */
  type Record = map<string, string>

  const ExportFileName := "selected_data.csv"
  const ExportMimeType := "text/csv;charset=utf-8;"

  // ---------------------------------------------------------------------
  // Row filter

  /** Some property value of the record, lower-cased, includes the
      lower-cased query. */
  predicate MatchesSearchQuery(row: Record, searchQuery: string)
    ensures MatchesSearchQuery(row, searchQuery) ==> row != map[]
  {
    exists value :: value in row.Values && Contains(Lower(value), Lower(searchQuery))
  }

  /** An empty facet lets every record through; a set facet only the records
      whose `jurisdictionCountry` is that country. */
  predicate MatchesCountry(row: Record, selectedCountry: string)
    ensures selectedCountry == "" ==> MatchesCountry(row, selectedCountry)
    ensures MatchesCountry(row, selectedCountry) ==> selectedCountry == "" || "jurisdictionCountry" in row
  {
    selectedCountry != "" ==>
      "jurisdictionCountry" in row && row["jurisdictionCountry"] == selectedCountry
  }

  predicate KeepRow(row: Record, searchQuery: string, selectedCountry: string)
  {
    MatchesSearchQuery(row, searchQuery) && MatchesCountry(row, selectedCountry)
  }

  /** The rows the grid shows: the dataset filtered by the search query and
      the country facet. */
  function FilterRows(dataset: seq<Record>, searchQuery: string, selectedCountry: string): (rows: seq<Record>)
    ensures forall row :: row in rows ==>
      row in dataset && MatchesSearchQuery(row, searchQuery) && MatchesCountry(row, selectedCountry)
    ensures forall row :: row in dataset ==>
      (MatchesSearchQuery(row, searchQuery) && MatchesCountry(row, selectedCountry) ==> row in rows)
  {
    Filter(dataset, row => KeepRow(row, searchQuery, selectedCountry))
  }

  /** The shown rows keep the order of the dataset; each shown row is a
      dataset record that passes both tests, and every dataset record that
      passes them is shown, once per occurrence. */
  lemma FilterRowsIsOrderedSelection(dataset: seq<Record>, searchQuery: string, selectedCountry: string)
    ensures var idx := KeptIndices(dataset, row => KeepRow(row, searchQuery, selectedCountry));
      && |idx| == |FilterRows(dataset, searchQuery, selectedCountry)|
      && (forall k :: 0 <= k < |idx| ==>
            idx[k] < |dataset| && FilterRows(dataset, searchQuery, selectedCountry)[k] == dataset[idx[k]])
      && (forall k, l :: 0 <= k < l < |idx| ==> idx[k] < idx[l])
      && (forall i :: 0 <= i < |dataset| ==>
            (i in idx <==> KeepRow(dataset[i], searchQuery, selectedCountry)))
  {
    FilterIsOrderedSelection(dataset, row => KeepRow(row, searchQuery, selectedCountry));
  }

  /** With an empty query and no facet the grid shows the whole dataset
      exactly when every record has at least one property: a record without
      properties has no value that could include the empty query. */
  lemma FilterRowsEmptyQuery(dataset: seq<Record>)
    ensures FilterRows(dataset, "", "") == dataset <==> forall row :: row in dataset ==> row != map[]
  {
    var p := row => KeepRow(row, "", "");
    if forall row :: row in dataset ==> row != map[] {
      forall i | 0 <= i < |dataset| ensures p(dataset[i]) {
        var row := dataset[i];
        assert row in dataset;
        var key :| key in row;
        ContainsEmpty(Lower(row[key]));
        assert row[key] in row.Values;
      }
      FilterKeepsAll(dataset, p);
    }
  }

  /** The search ignores the case of the query. */
  lemma FilterRowsIgnoresQueryCase(dataset: seq<Record>, searchQuery: string, selectedCountry: string)
    ensures FilterRows(dataset, searchQuery, selectedCountry)
         == FilterRows(dataset, Lower(searchQuery), selectedCountry)
  {
    LowerIdempotent(searchQuery);
    FilterAgreeing(dataset,
      row => KeepRow(row, searchQuery, selectedCountry),
      row => KeepRow(row, Lower(searchQuery), selectedCountry));
  }

  /** Two queries that differ only in the case of their letters show the
      same rows. */
  lemma FilterRowsQueryCaseInsensitive(dataset: seq<Record>, query1: string, query2: string,
                                       selectedCountry: string)
    requires EqualIgnoringCase(query1, query2)
    ensures FilterRows(dataset, query1, selectedCountry) == FilterRows(dataset, query2, selectedCountry)
  {
    LowerEqualIff(query1, query2);
    FilterAgreeing(dataset,
      row => KeepRow(row, query1, selectedCountry),
      row => KeepRow(row, query2, selectedCountry));
  }

  // ---------------------------------------------------------------------
  // Country facet

  /** The facet after a click on a country badge. */
  function ToggleCountry(prev: string, country: string): (next: string)
    ensures next == "" || next == country
    ensures country != "" ==> (next == "" <==> prev == country)
  {
    if prev == country then "" else country
  }

  /** Two clicks on the same country restore the facet exactly when it was
      empty or already that country; from another country they clear it. */
  lemma ToggleCountryTwice(prev: string, country: string)
    ensures ToggleCountry(ToggleCountry(prev, country), country) == prev
        <==> prev == "" || prev == country
    ensures prev != "" && prev != country ==> ToggleCountry(ToggleCountry(prev, country), country) == ""
  {
  }

  /** Switching a facet on and off again from no facet gives back the rows
      of the query alone. */
  lemma FacetOnOffRestoresRows(dataset: seq<Record>, searchQuery: string, country: string)
    ensures FilterRows(dataset, searchQuery, ToggleCountry(ToggleCountry("", country), country))
         == FilterRows(dataset, searchQuery, "")
  {
  }

  // ---------------------------------------------------------------------
  // CSV export

  /** `selectedRows.includes(row.id)`. */
  predicate IsSelected(row: Record, selectedRows: seq<string>)
    ensures IsSelected(row, selectedRows) ==> |selectedRows| > 0
  {
    "id" in row && row["id"] in selectedRows
  }

  /** The records an export writes: those of the full dataset whose id is
      selected, in dataset order, whatever the grid currently shows. */
  function SelectedData(dataset: seq<Record>, selectedRows: seq<string>): (data: seq<Record>)
    ensures |data| <= |dataset|
    ensures forall row :: row in data <==> row in dataset && IsSelected(row, selectedRows)
    ensures |selectedRows| == 0 ==> data == []
  {
    var data := Filter(dataset, row => IsSelected(row, selectedRows));
    assert data != [] ==> data[0] in data;
    data
  }

  /** `row[col.field] || ''`: a missing or empty value is written as ''. */
  function Cell(row: Record, field: string): (cell: string)
    ensures cell in row.Values || cell == ""
    ensures field in row ==> cell == row[field]
  {
    if field in row then row[field] else ""
  }

  function HeaderNames(columns: seq<Column>): (names: seq<string>)
    ensures |names| == |columns|
  {
    seq(|columns|, i requires 0 <= i < |columns| => columns[i].headerName)
  }

  function Cells(columns: seq<Column>, row: Record): (cells: seq<string>)
    ensures |cells| == |columns|
  {
    seq(|columns|, i requires 0 <= i < |columns| => Cell(row, columns[i].field))
  }

  function HeaderLine(columns: seq<Column>): string
  {
    Join(HeaderNames(columns), ',')
  }

  function DataLine(columns: seq<Column>, row: Record): string
  {
    Join(Cells(columns, row), ',')
  }

  function DataLines(columns: seq<Column>, data: seq<Record>): (lines: seq<string>)
    ensures |lines| == |data|
  {
    seq(|data|, i requires 0 <= i < |data| => DataLine(columns, data[i]))
  }

  /** The CSV text: the header line, then one line per record, joined by
      newlines; values are written as they are, without quoting. */
  function BuildCsv(columns: seq<Column>, data: seq<Record>): (csv: string)
    ensures StartsWith(csv, HeaderLine(columns))
    ensures |data| == 0 ==> csv == HeaderLine(columns)
  {
    Join([HeaderLine(columns)] + DataLines(columns, data), '\n')
  }

  /** No header name of `columns` holds `c`. */
  ghost predicate HeadersFreeOf(columns: seq<Column>, c: char)
  {
    forall i :: 0 <= i < |columns| ==> c !in columns[i].headerName
  }

  /** No value the columns pick from the records of `data` holds `c`. */
  ghost predicate ValuesFreeOf(columns: seq<Column>, data: seq<Record>, c: char)
  {
    forall j, i :: 0 <= j < |data| && 0 <= i < |columns| ==> c !in Cell(data[j], columns[i].field)
  }

  lemma {:induction false} JoinFreeOf(parts: seq<string>, sep: char, c: char)
    requires sep != c
    requires forall k :: 0 <= k < |parts| ==> c !in parts[k]
    ensures c !in Join(parts, sep)
    decreases |parts|
  {
    if |parts| > 1 {
      JoinFreeOf(parts[1..], sep, c);
    }
  }

  /** When no header name or value holds a newline, the CSV text splits into
      the header line and then exactly one line per record, in order. */
  lemma CsvLines(columns: seq<Column>, data: seq<Record>)
    requires HeadersFreeOf(columns, '\n') && ValuesFreeOf(columns, data, '\n')
    ensures Split(BuildCsv(columns, data), '\n') == [HeaderLine(columns)] + DataLines(columns, data)
    ensures |Split(BuildCsv(columns, data), '\n')| == 1 + |data|
  {
    var lines := [HeaderLine(columns)] + DataLines(columns, data);
    JoinFreeOf(HeaderNames(columns), ',', '\n');
    forall j | 0 <= j < |data| ensures '\n' !in DataLine(columns, data[j]) {
      JoinFreeOf(Cells(columns, data[j]), ',', '\n');
    }
    assert forall k :: 0 <= k < |lines| ==> '\n' !in lines[k] by {
      forall k | 0 <= k < |lines| ensures '\n' !in lines[k] {
        if k > 0 {
          assert lines[k] == DataLine(columns, data[k - 1]);
        }
      }
    }
    SplitJoin(lines, '\n');
  }

  /** Without quoting, every newline inside a header name or value starts an
      extra line: the text splits into 1 + |data| lines plus one per newline
      inside the header and data lines. */
  lemma CsvLineCount(columns: seq<Column>, data: seq<Record>)
    ensures |Split(BuildCsv(columns, data), '\n')|
         == 1 + |data| + TotalOccurrences([HeaderLine(columns)] + DataLines(columns, data), '\n')
  {
    SplitJoinLength([HeaderLine(columns)] + DataLines(columns, data), '\n');
  }

  /** A data line splits at its commas into the record's values in column
      order when no value holds a comma; each comma inside a value adds one
      more field, since values are not quoted. */
  lemma DataLineFields(columns: seq<Column>, row: Record)
    requires |columns| >= 1
    ensures |Split(DataLine(columns, row), ',')| == |columns| + TotalOccurrences(Cells(columns, row), ',')
    ensures (forall i :: 0 <= i < |columns| ==> ',' !in Cell(row, columns[i].field))
        ==> Split(DataLine(columns, row), ',') == Cells(columns, row)
  {
    var cells := Cells(columns, row);
    SplitJoinLength(cells, ',');
    if forall i :: 0 <= i < |columns| ==> ',' !in Cell(row, columns[i].field) {
      assert forall k :: 0 <= k < |cells| ==> ',' !in cells[k];
      SplitJoin(cells, ',');
    }
  }

  /** The header line splits at its commas back into the 13 header names. */
  lemma ColumnsHeaderLine()
    ensures Split(HeaderLine(Columns), ',') == HeaderNames(Columns)
  {
    ColumnsHeadersFree();
    SplitJoin(HeaderNames(Columns), ',');
  }

  /** The records of a selection hold no value their dataset lacks. */
  lemma SelectedDataFreeOf(dataset: seq<Record>, selectedRows: seq<string>, c: char)
    requires ValuesFreeOf(Columns, dataset, c)
    ensures ValuesFreeOf(Columns, SelectedData(dataset, selectedRows), c)
  {
    var data := SelectedData(dataset, selectedRows);
    forall j, i | 0 <= j < |data| && 0 <= i < |Columns|
      ensures c !in Cell(data[j], Columns[i].field)
    {
      assert data[j] in data;
      var k :| 0 <= k < |dataset| && dataset[k] == data[j];
    }
  }

  /** The export text of a selection splits into the header line and one
      line per selected record when the selected records' values hold no
      newline; the other records of the dataset do not matter. */
  lemma SelectedCsvLines(dataset: seq<Record>, selectedRows: seq<string>)
    requires ValuesFreeOf(Columns, SelectedData(dataset, selectedRows), '\n')
    ensures var data := SelectedData(dataset, selectedRows);
      Split(BuildCsv(Columns, data), '\n') == [HeaderLine(Columns)] + DataLines(Columns, data)
  {
    ColumnsHeadersFree();
    CsvLines(Columns, SelectedData(dataset, selectedRows));
  }

  /** What an export of a selection writes, line by line, when no value of
      a selected record holds a newline: line 0 is the header; line k + 1 is the data line of
      the k-th selected record of the full dataset, in dataset order; every
      dataset record whose id is selected has its line. */
  lemma ExportLines(dataset: seq<Record>, selectedRows: seq<string>)
    requires ValuesFreeOf(Columns, SelectedData(dataset, selectedRows), '\n')
    ensures var lines := Split(BuildCsv(Columns, SelectedData(dataset, selectedRows)), '\n');
            var idx := KeptIndices(dataset, row => IsSelected(row, selectedRows));
      && |lines| == 1 + |idx|
      && lines[0] == HeaderLine(Columns)
      && (forall k :: 0 <= k < |idx| ==>
            idx[k] < |dataset| && IsSelected(dataset[idx[k]], selectedRows)
            && lines[k + 1] == DataLine(Columns, dataset[idx[k]]))
      && (forall k, l :: 0 <= k < l < |idx| ==> idx[k] < idx[l])
      && (forall i :: 0 <= i < |dataset| && IsSelected(dataset[i], selectedRows) ==> i in idx)
  {
    var p := row => IsSelected(row, selectedRows);
    var data := SelectedData(dataset, selectedRows);
    FilterIsOrderedSelection(dataset, p);
    SelectedCsvLines(dataset, selectedRows);
    var lines := Split(BuildCsv(Columns, data), '\n');
    var idx := KeptIndices(dataset, p);
    forall k | 0 <= k < |idx|
      ensures idx[k] < |dataset| && IsSelected(dataset[idx[k]], selectedRows)
      ensures lines[k + 1] == DataLine(Columns, dataset[idx[k]])
    {
      assert data[k] == dataset[idx[k]];
      assert p(dataset[idx[k]]);
    }
  }

  /** A selected record is exported even when the current search or facet
      hides it from the grid. */
  lemma ExportIgnoresFilter(dataset: seq<Record>, selectedRows: seq<string>,
                            searchQuery: string, selectedCountry: string, i: nat)
    requires ValuesFreeOf(Columns, SelectedData(dataset, selectedRows), '\n')
    requires i < |dataset| && IsSelected(dataset[i], selectedRows)
    requires dataset[i] !in FilterRows(dataset, searchQuery, selectedCountry)
    ensures DataLine(Columns, dataset[i]) in Split(BuildCsv(Columns, SelectedData(dataset, selectedRows)), '\n')[1..]
  {
    ExportLines(dataset, selectedRows);
    var idx := KeptIndices(dataset, row => IsSelected(row, selectedRows));
    var lines := Split(BuildCsv(Columns, SelectedData(dataset, selectedRows)), '\n');
    var k :| 0 <= k < |idx| && idx[k] == i;
    assert lines[1..][k] == lines[k + 1];
  }

  /** A record with three properties, for the two searches below. */
  const ExampleRow: Record := map["id" := "ISO-1", "jurisdictionCountry" := "France", "title" := "Widget Std"]

  lemma ExampleRowValues()
    ensures forall v :: v in ExampleRow.Values ==> v == "ISO-1" || v == "France" || v == "Widget Std"
    ensures "Widget Std" in ExampleRow.Values
  {
    forall v | v in ExampleRow.Values ensures v == "ISO-1" || v == "France" || v == "Widget Std" {
      var k :| k in ExampleRow && ExampleRow[k] == v;
    }
    assert ExampleRow["title"] == "Widget Std";
  }

  /** The query "widget" finds the record through its title "Widget Std",
      with or without the facet "France". */
  lemma ExampleSearchFinds()
    ensures FilterRows([ExampleRow], "widget", "") == [ExampleRow]
    ensures FilterRows([ExampleRow], "widget", "France") == [ExampleRow]
  {
    ExampleRowValues();
    assert Lower("widget") == "widget";
    assert Lower("Widget Std") == "widget std";
    assert OccursAt("widget std", "widget", 0);
    ContainsIffOccurs("widget std", "widget");
    assert KeepRow(ExampleRow, "widget", "France");
  }

  /** The query "bolt" finds nothing: no value holds a 'b'. */
  lemma ExampleSearchMisses()
    ensures FilterRows([ExampleRow], "bolt", "") == []
  {
    assert !MatchesSearchQuery(ExampleRow, "bolt") by {
      ExampleRowValues();
      assert Lower("bolt") == "bolt";
      forall v | v in ExampleRow.Values ensures !Contains(Lower(v), "bolt") {
        if v == "ISO-1" {
          assert Lower(v) == "iso-1";
          NotContainsMissingChar("iso-1", "bolt", 'b');
        } else if v == "France" {
          assert Lower(v) == "france";
          NotContainsMissingChar("france", "bolt", 'b');
        } else {
          assert Lower(v) == "widget std";
          NotContainsMissingChar("widget std", "bolt", 'b');
        }
      }
    }
    assert [ExampleRow][..0] == [];
  }

  // ---------------------------------------------------------------------
  // The component

  /** What the export button does: warn that nothing is selected, or offer
      the CSV text for download. */
  datatype ExportOutcome =
    | NoRowsSelected
    | Download(fileName: string, mimeType: string, content: string)

  /** The component's own state: the selection the grid reports and the
      country facet. The dataset is fixed for the life of the component;
      the search query belongs to the application shell and comes in as an
      argument. */
  class TableView {
    const dataset: seq<Record>
    var selectedRows: seq<string>
    var selectedCountry: string

    constructor (dataset: seq<Record>)
      ensures this.dataset == dataset
      ensures selectedRows == [] && selectedCountry == ""
    {
      this.dataset := dataset;
      selectedRows := [];
      selectedCountry := "";
    }

    /** The rows handed to the grid, recomputed from the query and the
        current facet: exactly the dataset records that pass both tests. */
    function FilteredRows(searchQuery: string): (rows: seq<Record>)
      reads this
      ensures |rows| <= |dataset|
      ensures forall row :: row in rows <==>
        row in dataset && MatchesSearchQuery(row, searchQuery) && MatchesCountry(row, selectedCountry)
    {
      FilterRows(dataset, searchQuery, selectedCountry)
    }

    /** A click on the country badge of a row. The selection is kept. */
    method ClickCountry(country: string)
      modifies this`selectedCountry
      ensures selectedCountry == ToggleCountry(old(selectedCountry), country)
      ensures selectedRows == old(selectedRows)
    {
      selectedCountry := if selectedCountry == country then "" else country;
    }

    /** The grid reports its new selection, which replaces the old one. */
    method RowSelectionModelChange(newSelection: seq<string>)
      modifies this`selectedRows
      ensures selectedRows == newSelection
      ensures selectedCountry == old(selectedCountry)
    {
      selectedRows := newSelection;
    }

    /** The export button: nothing when no row is selected, otherwise the
      CSV text of the selected records of the full dataset. Changes no state. */
    method HandleExport() returns (outcome: ExportOutcome)
      ensures outcome == NoRowsSelected <==> |selectedRows| == 0
      ensures outcome.Download? ==>
        && outcome.fileName == ExportFileName
        && outcome.mimeType == ExportMimeType
        && outcome.content == BuildCsv(Columns, SelectedData(dataset, selectedRows))
    {
      if |selectedRows| == 0 {
        return NoRowsSelected;
      }
      var selectedData := SelectedData(dataset, selectedRows);
      var csvContent := BuildCsv(Columns, selectedData);
      outcome := Download(ExportFileName, ExportMimeType, csvContent);
    }
  }
}
