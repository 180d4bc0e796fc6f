/** The rows written to the downloadable results sheet. */
module Export {
  import opened Optional
  import opened JsString
  import opened Cells
  import opened Records
  import opened Extraction
  import opened Validation

  /** One row of the results sheet: columns Number, Status and Error. */
  datatype ExportRow = ExportRow(Number: string, Status: string, Error: string)

  /** `{Number: v.number, Status: v.status ? 'Valid' : 'Invalid', Error: v.error || ''}`. */
  function ExportRecord(v: NumberValidation): (row: ExportRow)
    ensures row.Number == v.number
    ensures row.Status == "Valid" <==> v.status == Some(true)
    ensures row.Status == "Valid" || row.Status == "Invalid"
    ensures row.Error == v.error.GetOr("")
  {
    ExportRow(
      v.number,
      if v.status == Some(true) then "Valid" else "Invalid",
      if v.error.Some? && v.error.value != "" then v.error.value else "")
  }

  /** `validations.map(...)`: one row per record, in order. The number is copied, the status
      is "Valid" exactly for a true status (false and absent give "Invalid"), and the error is
      the record's error, or "" when it is absent. */
  function ExportRows(vs: seq<NumberValidation>): (rows: seq<ExportRow>)
    ensures |rows| == |vs|
    ensures forall k :: 0 <= k < |vs| ==>
      && rows[k].Number == vs[k].number
      && (rows[k].Status == "Valid" <==> vs[k].status == Some(true))
      && (rows[k].Status == "Valid" || rows[k].Status == "Invalid")
      && rows[k].Error == vs[k].error.GetOr("")
  {
    seq(|vs|, k requires 0 <= k < |vs| => ExportRecord(vs[k]))
  }

  /** The sheet holding the exported rows, read back cell by cell as strings, headed by the
      column names. */
  function ExportedSheet(rows: seq<ExportRow>): (sheet: seq<Row>)
    ensures |sheet| == |rows| + 1
  {
    [[Str("Number"), Str("Status"), Str("Error")]]
      + seq(|rows|, k requires 0 <= k < |rows| => [Str(rows[k].Number), Str(rows[k].Status), Str(rows[k].Error)])
  }

  /** Records fit for the round trip: every number non-empty and already trimmed, as the
      upload produces them. */
  predicate TrimmedNumbers(vs: seq<NumberValidation>) {
    forall k :: 0 <= k < |vs| ==> vs[k].number != "" && Trim(vs[k].number) == vs[k].number
  }

  /** Uploading the exported sheet again gives back the same numbers in the same order,
      each with status and error unset. */
  lemma ExportReimport(vs: seq<NumberValidation>)
    requires TrimmedNumbers(vs)
    ensures var back := ExtractNumbers(ExportedSheet(ExportRows(vs)));
      |back| == |vs| && forall k :: 0 <= k < |vs| ==> back[k] == NumberValidation(vs[k].number, None, None)
  {
    var rows := ExportRows(vs);
    var sheet := ExportedSheet(rows);
    var body := sheet[1..];
    assert |body| == |vs|;
    forall k | 0 <= k < |body|
      ensures KeepRow(body[k]) && ToNumberValidation(body[k]) == NumberValidation(vs[k].number, None, None)
    {
      assert body[k][0] == Str(vs[k].number);
    }
    FilterRowsAllKept(body, KeepRow);
    var back := ExtractNumbers(sheet);
    assert back == seq(|body|, k requires 0 <= k < |body| => ToNumberValidation(body[k]));
  }

  /** Upload, run, download, upload again: the numbers come back exactly as first extracted. */
  lemma UploadRunExportRoundTrip(sheet: seq<Row>, outcomes: seq<Outcome>)
    requires |outcomes| == |ExtractNumbers(sheet)|
    ensures var vs := ExtractNumbers(sheet);
      Numbers(ExtractNumbers(ExportedSheet(ExportRows(Published(vs, outcomes))))) == Numbers(vs)
  {
    var vs := ExtractNumbers(sheet);
    var after := Published(vs, outcomes);
    assert Numbers(after) == Numbers(vs);
    assert TrimmedNumbers(after) by {
      forall k | 0 <= k < |after| ensures after[k].number == vs[k].number {
        assert Numbers(after)[k] == Numbers(vs)[k];
      }
    }
    ExportReimport(after);
  }
}
