/** Cell values of a parsed sheet row (what the spreadsheet reader yields for one
    cell of a row read with `header: 1`), with JavaScript's truthiness and `toString`. */
module Cells {
  import opened JsString

  /** `Empty` is a missing cell (`undefined`); numbers are integers. */
  datatype Cell = Empty | Str(s: string) | Num(n: int) | Bool(b: bool)

  /** JavaScript truthiness: the falsy cells are exactly `undefined`, `""`, `0` and `false`. */
  predicate Truthy(c: Cell)
    ensures !Truthy(c) <==> c == Empty || c == Str("") || c == Num(0) || c == Bool(false)
  {
    match c
    case Empty => false
    case Str(s) => s != ""
    case Num(n) => n != 0
    case Bool(b) => b
  }

  /** `cell.toString()`. On `undefined` JavaScript throws, so callers must rule it out. */
  function CellString(c: Cell): (s: string)
    requires !c.Empty?
    ensures c.Str? ==> s == c.s
    ensures c.Num? && c.n >= 0 ==> (forall k :: 0 <= k < |s| ==> IsDigit(s[k])) && DecimalValue(s) == c.n
    ensures c.Num? && c.n < 0 ==>
      |s| >= 2 && s[0] == '-' && (forall k :: 1 <= k < |s| ==> IsDigit(s[k])) && DecimalValue(s[1..]) == -c.n
    ensures c.Num? && c.n >= 0 ==> |s| >= 1 && (s[0] == '0' <==> c.n == 0)
    ensures c.Num? && c.n < 0 ==> s[1] != '0'
    ensures c == Num(0) ==> s == "0"
    ensures c.Bool? ==> (s == "true" <==> c.b) && (s == "false" <==> !c.b)
  {
    match c
    case Str(s) => s
    case Num(n) => IntToDecimal(n)
    case Bool(b) => if b then "true" else "false"
  }

  /** Every truthy cell other than a string prints without surrounding white space, and
      non-empty; so only string cells can be truthy yet trim to the empty string. */
  lemma NonStringCellTrims(c: Cell)
    requires Truthy(c) && !c.Str?
    ensures Trim(CellString(c)) == CellString(c) != ""
  {
    match c
    case Num(n) => TrimIntToDecimal(n);
    case Bool(b) => TrimOfTrimmed(CellString(c));
  }

  /** For a truthy cell, the blank test fails exactly on a string cell of white space only. */
  lemma TrimBlankCases(c: Cell)
    requires Truthy(c)
    ensures Trim(CellString(c)) == "" <==> c.Str? && IsBlank(c.s)
  {
    if !c.Str? {
      NonStringCellTrims(c);
    }
  }
}
