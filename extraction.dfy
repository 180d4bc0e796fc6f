/** Extraction of the phone-number list from a parsed sheet: skip the header row, keep the
    rows whose first cell is truthy and not blank, and turn each into a fresh record. */
module Extraction {
  import opened Optional
  import opened JsString
  import opened Cells
  import opened Records

  type Row = seq<Cell>

  /** The filter predicate: the row has a first cell, it is truthy, and its string is not
      blank after trimming. Equivalently: the first cell is a string that is not all white
      space, a non-zero number, or `true`. */
  predicate KeepRow(row: Row)
    ensures KeepRow(row) <==> (
      && |row| > 0
      && match row[0]
         case Empty => false
         case Str(t) => !IsBlank(t)
         case Num(n) => n != 0
         case Bool(b) => b)
  {
    |row| > 0 && Truthy(row[0]) && (TrimBlankCases(row[0]); Trim(CellString(row[0])) != "")
  }

  /** `rows.filter(keep)`, with the callback passed in as JavaScript's `filter` takes it;
      extraction passes `KeepRow`. */
  function FilterRows(rows: seq<Row>, keep: Row -> bool): (kept: seq<Row>)
    ensures |kept| <= |rows|
    ensures forall k :: 0 <= k < |kept| ==> keep(kept[k])
  {
    if rows == [] then []
    else (if keep(rows[0]) then [rows[0]] else []) + FilterRows(rows[1..], keep)
  }

  /** The map callback: a record holding the trimmed first cell, status and error unset. */
  function ToNumberValidation(row: Row): (v: NumberValidation)
    requires KeepRow(row)
    ensures v.number != "" && Trim(v.number) == v.number
    ensures v.status == None && v.error == None
  {
    TrimIdempotent(CellString(row[0]));
    NumberValidation(Trim(CellString(row[0])), None, None)
  }

  /** `jsonData.slice(1).filter(...).map(...)`: the list a file upload produces. Never longer
      than the sheet without its header; every number non-empty and already trimmed; status
      and error unset. */
  function ExtractNumbers(sheet: seq<Row>): (numbers: seq<NumberValidation>)
    ensures |sheet| == 0 ==> numbers == []
    ensures |sheet| > 0 ==> |numbers| <= |sheet| - 1
    ensures forall k :: 0 <= k < |numbers| ==>
      && numbers[k].number != "" && Trim(numbers[k].number) == numbers[k].number
      && numbers[k].status == None && numbers[k].error == None
  {
    var body := if |sheet| == 0 then [] else sheet[1..];
    var kept := FilterRows(body, KeepRow);
    seq(|kept|, k requires 0 <= k < |kept| => ToNumberValidation(kept[k]))
  }

  /** Reference definition of the filter by positions: the indices `j >= from` of `sheet`
      whose row is kept, in increasing order. */
  ghost function KeptIndices(sheet: seq<Row>, from: nat, keep: Row -> bool): seq<nat>
    decreases |sheet| - from
  {
    if from >= |sheet| then []
    else (if keep(sheet[from]) then [from] else []) + KeptIndices(sheet, from + 1, keep)
  }

  /** The kept positions from `from` on lie in `from..|sheet|`, increase, and are exactly
      the positions whose row passes the filter. */
  lemma {:induction false} KeptIndicesExact(sheet: seq<Row>, from: nat, keep: Row -> bool)
    requires from <= |sheet|
    ensures var idx := KeptIndices(sheet, from, keep);
      && (forall k :: 0 <= k < |idx| ==> from <= idx[k] < |sheet|)
      && (forall k1, k2 :: 0 <= k1 < k2 < |idx| ==> idx[k1] < idx[k2])
      && (forall j :: from <= j < |sheet| ==> (j in idx <==> keep(sheet[j])))
    decreases |sheet| - from
  {
    if from < |sheet| {
      KeptIndicesExact(sheet, from + 1, keep);
      var kept := keep(sheet[from]);
      var rest := KeptIndices(sheet, from + 1, keep);
      var idx := (if kept then [from] else []) + rest;
      assert KeptIndices(sheet, from, keep) == idx;
      assert from !in rest;
      forall j | from <= j < |sheet|
        ensures j in idx <==> keep(sheet[j])
      {
        if j == from {
          assert j in idx <==> kept;
        } else {
          assert j in idx <==> j in rest;
        }
      }
    }
  }

  /** Filtering the rows from `from` on picks exactly the rows at `KeptIndices(sheet, from)`. */
  lemma {:induction false} FilterRowsAtIndices(sheet: seq<Row>, from: nat, keep: Row -> bool)
    requires from <= |sheet|
    ensures var idx := KeptIndices(sheet, from, keep);
      var kept := FilterRows(sheet[from..], keep);
      |kept| == |idx| && forall k :: 0 <= k < |idx| ==> 0 <= idx[k] < |sheet| && kept[k] == sheet[idx[k]]
    decreases |sheet| - from
  {
    if from < |sheet| {
      FilterRowsAtIndices(sheet, from + 1, keep);
      assert sheet[from..][1..] == sheet[from + 1..];
      assert sheet[from..][0] == sheet[from];
    }
  }

  /** The whole of what extraction does, stated by positions in the sheet: entry `k` of the
      result comes from the `k`-th kept row (never row 0, the header), positions increase
      with `k`, and a row after the header is represented iff it passes the filter. */
  lemma ExtractNumbersSpec(sheet: seq<Row>)
    ensures var idx := KeptIndices(sheet, 1, KeepRow);
      var numbers := ExtractNumbers(sheet);
      && |numbers| == |idx|
      && (forall k :: 0 <= k < |idx| ==>
            && 1 <= idx[k] < |sheet| && KeepRow(sheet[idx[k]])
            && numbers[k] == ToNumberValidation(sheet[idx[k]]))
      && (forall k1, k2 :: 0 <= k1 < k2 < |idx| ==> idx[k1] < idx[k2])
      && (forall j :: 1 <= j < |sheet| ==> (j in idx <==> KeepRow(sheet[j])))
  {
    if |sheet| > 0 {
      KeptIndicesExact(sheet, 1, KeepRow);
      FilterRowsAtIndices(sheet, 1, KeepRow);
      var idx := KeptIndices(sheet, 1, KeepRow);
      var kept := FilterRows(sheet[1..], KeepRow);
      var numbers := ExtractNumbers(sheet);
      assert |numbers| == |kept|;
      forall k | 0 <= k < |idx|
        ensures KeepRow(sheet[idx[k]])
        ensures numbers[k] == ToNumberValidation(sheet[idx[k]])
      {
        assert kept[k] == sheet[idx[k]];
      }
    }
  }

  /** The header row never influences the result. */
  lemma HeaderIgnored(header: Row, other: Row, body: seq<Row>)
    ensures ExtractNumbers([header] + body) == ExtractNumbers([other] + body)
  {
    assert ([header] + body)[1..] == body == ([other] + body)[1..];
  }

  /** A row whose first cell is the number `0`, or any blank string, is dropped even though
      it has a first cell. */
  lemma FalsyOrBlankFirstCellDropped(row: Row)
    requires |row| > 0
    requires row[0] == Num(0) || row[0] == Empty || (row[0].Str? && IsBlank(row[0].s))
    ensures !KeepRow(row)
  {
  }

  /** A row whose first cell is a non-zero number is kept, with the number's decimal numeral. */
  lemma NumericFirstCellKept(row: Row)
    requires |row| > 0 && row[0].Num? && row[0].n != 0
    ensures KeepRow(row) && ToNumberValidation(row).number == IntToDecimal(row[0].n)
  {
    NonStringCellTrims(row[0]);
  }

  /** When every row passes, filtering keeps them all. */
  lemma {:induction false} FilterRowsAllKept(rows: seq<Row>, keep: Row -> bool)
    requires forall k :: 0 <= k < |rows| ==> keep(rows[k])
    ensures FilterRows(rows, keep) == rows
  {
    if rows != [] {
      FilterRowsAllKept(rows[1..], keep);
      assert [rows[0]] + rows[1..] == rows;
    }
  }
}
