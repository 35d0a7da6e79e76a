# Standards table: filter, facet, selection and CSV export

This project models the `Table` view component of a browser page that lists
standards-document metadata. The component does four things:

- It derives the rows the grid shows. It keeps, in dataset order, the
  records where some property value includes the search query, ignoring
  case. When a country facet is set, the record's `jurisdictionCountry`
  must also equal it.
- A click on a country badge toggles that country facet.
- It mirrors the row selection that the grid reports.
- On export it builds a CSV text from the selected records of the full
  dataset.

The model has four modules:

- `Text` (text.dfy) models `toLowerCase` (ASCII letters only), `includes` and
  `Array.prototype.join`. It also defines `Split`, an inverse of `Join` that
  exists only to state what the export text contains line by line and field
  by field. The component itself never splits anything.
- `Sequences` (sequences.dfy) models `Array.prototype.filter` as `Filter`.
  It proves that a filter keeps exactly the elements that pass, each once and
  in their original order.
- `GridColumns` (columns.dfy) holds the 13 grid columns: the record property
  each one shows and its header name, in declared order.
- `Table` (table.dfy) holds the records, the search and facet tests, the
  facet toggle and the CSV construction. Its `TableView`
  class has the component's two state fields, `selectedRows` and
  `selectedCountry`. Each state setter is a method.

A record is a `map<string, string>`: an object whose properties hold
strings. The dataset is an arbitrary sequence of records, fixed when the
component is created. The search query belongs to the application shell and
is passed in as an argument.

The code declares 13 columns: `id` followed by the twelve descriptive
properties.

The export does not quote or escape values. It therefore does not follow the
field-quoting rules of section 2 (rules 5-7) of RFC 4180, and the model adds
no quoting. The lemmas state exactly what comes out instead:

- Every newline inside a value adds one line.
- Every comma inside a value adds one field.

## Model

| member | source | states |
|---|---|---|
| `Text.Lower` | src/components/table/table.jsx:19 | Lower-casing keeps the length. Each upper-case ASCII letter becomes its own small letter, and every other character stays as it is. |
| `Text.LowerEqualIff` | src/components/table/table.jsx:19 | Two texts lower-case alike exactly when they differ at most in the case of ASCII letters. |
| `Text.Contains` | src/components/table/table.jsx:19 | `includes`, scanning the start positions left to right. A text includes only queries no longer than itself. |
| `Text.ContainsIffOccurs` | src/components/table/table.jsx:19 | `includes` holds exactly when the query occurs at some position of the text. |
| `Text.NotContainsMissingChar` | src/components/table/table.jsx:19 | A text that lacks some character of the query does not include it. |
| `Text.Join` | src/components/table/table.jsx:98-103 | `join`: the text starts with the first part, and every character other than the separator comes from some part. |
| `Text.SplitJoin` | src/components/table/table.jsx:98-103 | Splitting a joined text at the separator gives back the parts, provided no part holds the separator. |
| `Text.SplitJoinLength` | src/components/table/table.jsx:98-103 | A joined text splits into one piece per part plus one per separator found inside the parts. |
| `Text.Split` | src/components/table/table.jsx:98-103 | Splitting yields at least one piece, and no piece holds the separator. |
| `Sequences.Filter` | src/components/table/table.jsx:17-23 | The filter result is no longer than its input. Every kept element is in the input and passes. Every input element that passes is kept. |
| `Sequences.FilterIsOrderedSelection` | src/components/table/table.jsx:17-23 | The k-th kept element sits at the k-th index of a strictly increasing index list. That list holds exactly the indices whose element passes, so nothing is reordered, duplicated or invented. |
| `Sequences.FilterKeepsAll` | src/components/table/table.jsx:17-23 | Filtering returns the whole input exactly when every element passes (both directions). |
| `Sequences.FilterAgreeing` | src/components/table/table.jsx:17-23 | Two tests that agree on every element filter alike. |
| `Table.MatchesSearchQuery` | src/components/table/table.jsx:18-20 | Some property value, lower-cased, includes the lower-cased query. Only a record with at least one property can match. |
| `Table.MatchesCountry` | src/components/table/table.jsx:21 | An empty facet lets every record through. A set facet admits only records whose `jurisdictionCountry` is present and equal to it. |
| `Table.FilterRows` | src/components/table/table.jsx:16-24 | Soundness: every shown row is a dataset record with a value that includes the query (both lower-cased), and it matches a non-empty facet. Completeness: every dataset record that passes both tests is shown. |
| `Table.FilterRowsIsOrderedSelection` | src/components/table/table.jsx:16-24 | Shown rows keep dataset order. The indices shown are exactly those of the records that pass both tests, each shown once. |
| `Table.FilterRowsEmptyQuery` | src/components/table/table.jsx:18-22 | With an empty query and no facet the whole dataset is shown iff every record has at least one property (`[].some(...)` is false). |
| `Table.FilterRowsIgnoresQueryCase` | src/components/table/table.jsx:19 | Lower-casing the query first changes nothing. |
| `Table.FilterRowsQueryCaseInsensitive` | src/components/table/table.jsx:19 | Two queries that differ only in the case of ASCII letters show the same rows. |
| `Table.ExampleSearchFinds` | src/components/table/table.jsx:16-24 | For the record {id "ISO-1", France, title "Widget Std"}, the query "widget" finds it, with or without the facet "France". |
| `Table.ExampleSearchMisses` | src/components/table/table.jsx:16-24 | For the same record, the query "bolt" finds nothing. |
| `Table.ToggleCountry` | src/components/table/table.jsx:45 | The new facet is empty or the clicked country. For a non-empty country it becomes empty exactly when it already was that country. |
| `Table.ToggleCountryTwice` | src/components/table/table.jsx:45 | Two clicks on one country restore the facet iff it was empty or already that country. From a different country they clear it. |
| `Table.FacetOnOffRestoresRows` | src/components/table/table.jsx:45 | Switching a facet on and off from no facet gives back the rows of the query alone. |
| `GridColumns.Columns` | src/components/table/table.jsx:26-86 | The 13 columns in declared order, each with its record property and header name. |
| `GridColumns.ColumnsHeadersFree` | src/components/table/table.jsx:26-86 | There are 13 columns, and no header name holds a comma or a newline. |
| `Table.IsSelected` | src/components/table/table.jsx:95 | A record is selected when its `id` is in the selection. An empty selection selects nothing. |
| `Table.SelectedData` | src/components/table/table.jsx:94-96 | The export's records: no more than the dataset holds, exactly the dataset records whose `id` is selected, and none for an empty selection. |
| `Table.Cell` | src/components/table/table.jsx:101 | The fallback to '': the record's value for the field when it has one, otherwise ''. The cell is always a value of the record or ''. |
| `Table.BuildCsv` | src/components/table/table.jsx:98-103 | The CSV text starts with the header line, and with no records it is the header line alone. |
| `Table.ColumnsHeaderLine` | src/components/table/table.jsx:99 | The header line splits at its commas back into the 13 header names. |
| `Table.CsvLines` | src/components/table/table.jsx:98-103 | When no header or value holds a newline, the CSV text splits into the header line followed by one line per record, in order. |
| `Table.CsvLineCount` | src/components/table/table.jsx:98-103 | For any input, the line count is 1 + records + the newlines inside the header and data lines, because nothing is escaped. |
| `Table.DataLineFields` | src/components/table/table.jsx:101 | A data line splits at commas into one field per column plus one per comma inside a value. Without such commas the fields are the record's values in column order, with missing values as ''. |
| `Table.SelectedDataFreeOf` | src/components/table/table.jsx:94-96 | The records picked for export carry only values of the dataset. |
| `Table.SelectedCsvLines` | src/components/table/table.jsx:94-103 | When no value of a selected record holds a newline (unselected records may hold any), the export text of a selection splits into the header line followed by one line per selected record. |
| `Table.ExportLines` | src/components/table/table.jsx:94-103 | When no value of a selected record holds a newline: line 0 is the header line. Line k+1 is the data line of the k-th dataset record whose `id` is selected, in dataset order. Every such record has a line, and there are 1 + (number of such records) lines. |
| `Table.ExportIgnoresFilter` | src/components/table/table.jsx:94-103 | A selected record is exported, as a line of its own, even when the current search or facet hides it from the grid (given no newline in a selected record's values). |
| `Table.TableView.constructor` | src/components/table/table.jsx:13-14 | The component starts with an empty selection and an empty facet. |
| `Table.TableView.FilteredRows` | src/components/table/table.jsx:16-24 | The grid's rows are no more than the dataset holds and are exactly the dataset records that match the given query and the current facet. |
| `Table.TableView.ClickCountry` | src/components/table/table.jsx:44-46 | The facet becomes `ToggleCountry` of its old value. The selection is unchanged. |
| `Table.TableView.RowSelectionModelChange` | src/components/table/table.jsx:123 | The selection becomes exactly the reported list. The facet is unchanged. |
| `Table.TableView.HandleExport` | src/components/table/table.jsx:88-112 | With an empty selection the outcome is `NoRowsSelected`. Otherwise it is a download named `selected_data.csv` of type `text/csv;charset=utf-8;` whose content is `BuildCsv` of the 13 columns and the selected records of the full dataset. No state changes either way. |

## Left out

- Lower-casing covers the ASCII letters only. Unicode case mapping of `toLowerCase` is not modelled.
- Record values are strings. Non-string values are not modelled. For such values `toString()` coercion would apply, a `null` value would make the filter throw, and `0` or `false` would be written as ''.
- The browser download is not modelled: the Blob, `URL.createObjectURL`, and creating, clicking and removing the anchor (table.jsx:105-112). `HandleExport` returns the file name, MIME type and text instead.
- The `alert` on an empty selection (table.jsx:90) becomes the `NoRowsSelected` outcome.
- Rendering is not modelled: `DataGrid`, the `Header`, the `sx` styling, theme tokens, column `flex`, the badge markup and `cellClassName` (table.jsx:73), which only builds a CSS class name.
- The contents of the mock dataset are external data, so the dataset is an arbitrary sequence of records. The grid's requirement of unique `id`s is not assumed, because no result depends on it.
- `useMemo` caching is not modelled. The shown rows are recomputed from the dataset, query and facet, which gives the same result.
- src/App.js and src/components/design-parts/Navbar.jsx only hold the search query and pass it down. The query is an argument here.
