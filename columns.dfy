/** The column schema of the table grid: which record property each column
    shows, under which header, in which order. */
module GridColumns {

  /** A grid column: the record property it shows and its header text. */
  datatype Column = Column(field: string, headerName: string)

  /** The columns of the grid, in their declared order. */
  const Columns: seq<Column> := [
    Column("id", "AC Code"),
    Column("jurisdictionCountry", "Jurisdiction Country"),
    Column("documentIdentifier", "Document Identifier"),
    Column("environmentalPerformanceFocus", "Environmental Performance Areas of Focus"),
    Column("lifecycleStageFocus", "Lifecycle Stage Areas of Focus"),
    Column("title", "Title"),
    Column("description", "Description"),
    Column("abstract", "Abstract"),
    Column("publicationDate", "Publication Date"),
    Column("standardType", "Standard Type"),
    Column("status", "Status"),
    Column("technicalCommittee", "Technical Committee"),
    Column("issuingBody", "Issuing Body")
  ]

  /** Neither the CSV field separator nor the line separator occurs in `s`. */
  predicate NoSeparator(s: string)
  {
    forall k :: 0 <= k < |s| ==> s[k] != ',' && s[k] != '\n'
  }

  // Each header name gets a proof of its own: the solver cannot check
  // the characters of all thirteen literals within one proof.
  lemma HeaderFree0() ensures NoSeparator(Columns[0].headerName) { }
  lemma HeaderFree1() ensures NoSeparator(Columns[1].headerName) { }
  lemma HeaderFree2() ensures NoSeparator(Columns[2].headerName) { }
  lemma HeaderFree3() ensures NoSeparator(Columns[3].headerName) { }
  lemma HeaderFree4() ensures NoSeparator(Columns[4].headerName) { }
  lemma HeaderFree5() ensures NoSeparator(Columns[5].headerName) { }
  lemma HeaderFree6() ensures NoSeparator(Columns[6].headerName) { }
  lemma HeaderFree7() ensures NoSeparator(Columns[7].headerName) { }
  lemma HeaderFree8() ensures NoSeparator(Columns[8].headerName) { }
  lemma HeaderFree9() ensures NoSeparator(Columns[9].headerName) { }
  lemma HeaderFree10() ensures NoSeparator(Columns[10].headerName) { }
  lemma HeaderFree11() ensures NoSeparator(Columns[11].headerName) { }
  lemma HeaderFree12() ensures NoSeparator(Columns[12].headerName) { }

  /** There are 13 columns, and no header name holds a comma or a newline. */
  lemma ColumnsHeadersFree()
    ensures |Columns| == 13
    ensures forall i :: 0 <= i < |Columns| ==> ',' !in Columns[i].headerName && '\n' !in Columns[i].headerName
  {
    HeaderFree0(); HeaderFree1(); HeaderFree2(); HeaderFree3(); HeaderFree4();
    HeaderFree5(); HeaderFree6(); HeaderFree7(); HeaderFree8(); HeaderFree9();
    HeaderFree10(); HeaderFree11(); HeaderFree12();
  }
}
