/** The records the page keeps per phone number, and the abstract result of one
    validation request. */
module Records {
  import opened Optional

  /** `NumberValidation`: a trimmed number with its optional status and error. */
  datatype NumberValidation = NumberValidation(number: string, status: Option<bool>, error: Option<string>)

  /** What one request for one row produced: the request threw (`Failure`), or the JSON
      body arrived with its `numberstatus` and `error` fields (each possibly absent). */
  datatype Outcome = Failure | Response(numberstatus: Option<bool>, error: Option<string>)

  /** The error text written when a request throws. */
  const FailedToValidate: string := "Failed to validate"

  /** The numbers of a list of records, in order. */
  function Numbers(vs: seq<NumberValidation>): (ns: seq<string>)
    ensures |ns| == |vs| && forall k :: 0 <= k < |vs| ==> ns[k] == vs[k].number
  {
    seq(|vs|, k requires 0 <= k < |vs| => vs[k].number)
  }
}
