/** The page's state and its three handlers: file upload, the sequential validation run,
    and the results download. */
module HomePage {
  import opened Optional
  import opened Records
  import opened Extraction
  import opened Progress
  import opened Validation
  import opened Export

  /** The component state: the API key typed by the user, whether a run is going on, the list
      of records (a reference: handing the working copy to the state makes the two the same
      array), and the progress percentage. */
  class Page {
    var apiKey: string
    var isProcessing: bool
    var validations: array<NumberValidation>
    var progress: nat

    /** Between two handlers no run is going on and the progress shows 0. */
    ghost predicate Idle()
      reads this
    {
      !isProcessing && progress == 0
    }

    /** The initial state: empty key, no records, idle. */
    constructor ()
      ensures Idle() && apiKey == "" && validations.Length == 0
    {
      apiKey := "";
      isProcessing := false;
      validations := new NumberValidation[0];
      progress := 0;
    }

    /** The key input's `onChange`: the state takes the typed key. */
    method SetApiKey(key: string)
      modifies this`apiKey
      ensures apiKey == key
    {
      apiKey := key;
    }

    /** `handleFileUpload`, from the already parsed first sheet onwards: with no file chosen
        nothing happens, otherwise the state gets a new list extracted from the sheet. */
    method HandleFileUpload(file: Option<seq<Row>>)
      modifies this`validations
      ensures file.None? ==> validations == old(validations)
      ensures file.Some? ==> fresh(validations) && validations[..] == ExtractNumbers(file.value)
    {
      if file.None? {
        return;
      }
      var numbers := ExtractNumbers(file.value);
      validations := new NumberValidation[|numbers|](k requires 0 <= k < |numbers| => numbers[k]);
    }

    /** The loop of `validateNumbers` over the working copy `newValidations` of `rows`, row by
        row in order. A response writes its fields into row `i`, points the state at the
        working copy and sets the progress; a thrown request writes the failure into row `i`
        only. `shown[i]` is the progress after row `i`. */
    method RunRows(rows: array<NumberValidation>, newValidations: array<NumberValidation>, outcomes: seq<Outcome>)
      returns (ghost shown: seq<nat>)
      requires rows != newValidations && rows.Length == newValidations.Length == |outcomes| > 0
      requires newValidations[..] == rows[..] && validations == rows && progress == 0
      modifies this`validations, this`progress, newValidations
      ensures rows[..] == old(rows[..])
      ensures newValidations[..] == Validated(old(rows[..]), outcomes)
      ensures validations == if AnyResponse(outcomes) then newValidations else rows
      ensures progress == ProgressAfter(outcomes, |outcomes|)
      ensures |shown| == |outcomes| && forall k :: 0 <= k < |outcomes| ==> shown[k] == ProgressAfter(outcomes, k + 1)
    {
      var n := rows.Length;
      ghost var vs := rows[..];
      ghost var published := false;
      shown := [];
      for i := 0 to n
        invariant rows[..] == vs
        invariant newValidations[..] == PartialRun(vs, outcomes, i)
        invariant published <==> AnyResponse(outcomes[..i])
        invariant validations == if published then newValidations else rows
        invariant progress == ProgressAfter(outcomes, i)
        invariant |shown| == i && forall k :: 0 <= k < i ==> shown[k] == ProgressAfter(outcomes, k + 1)
      {
        assert outcomes[..i + 1] == outcomes[..i] + [outcomes[i]];
        AnyResponseSnoc(outcomes[..i], outcomes[i]);
        match outcomes[i] {
          case Response(st, err) =>
            newValidations[i] := newValidations[i].(status := st, error := err);
            validations := newValidations;
            PercentAtMost100(i + 1, n);
            progress := Percent(i + 1, n);
            published := true;
          case Failure =>
            newValidations[i] := newValidations[i].(status := Some(false), error := Some(FailedToValidate));
        }
        shown := shown + [progress];
      }
      assert outcomes[..n] == outcomes;
    }

    /** `validateNumbers` as written. With an empty key or no records nothing happens.
        Otherwise every row is validated in order on a copy, and afterwards the state holds
        `Published(...)`: the annotated copy when at least one request got a response, the
        untouched previous list when all of them threw. The progress after row `i` is
        `ProgressAfter(outcomes, i + 1)`, and the run ends idle with progress reset to 0. */
    method ValidateNumbers(outcomes: seq<Outcome>) returns (ghost shown: seq<nat>)
      requires Idle() && |outcomes| == validations.Length
      modifies this
      ensures Idle() && apiKey == old(apiKey)
      ensures old(apiKey == "" || validations.Length == 0) ==> validations == old(validations) && shown == []
      ensures old(apiKey != "" && validations.Length > 0) ==>
        && validations[..] == Published(old(validations[..]), outcomes)
        && (AnyResponse(outcomes) ==> fresh(validations))
        && (!AnyResponse(outcomes) ==> validations == old(validations))
        && |shown| == |outcomes|
        && forall k :: 0 <= k < |outcomes| ==> shown[k] == ProgressAfter(outcomes, k + 1)
    {
      if apiKey == "" || validations.Length == 0 {
        return [];
      }
      isProcessing := true;
      var rows := validations;
      var newValidations := new NumberValidation[rows.Length](k requires 0 <= k < rows.Length reads rows => rows[k]);
      shown := RunRows(rows, newValidations, outcomes);
      isProcessing := false;
      progress := 0;
    }

    /** `validateNumbers` as evidently intended: the same run, after which the state always
        holds the annotated copy, so rows whose request threw show "Failed to validate" even
        when no request got a response. */
    method ValidateNumbersAndPublish(outcomes: seq<Outcome>) returns (ghost shown: seq<nat>)
      requires Idle() && |outcomes| == validations.Length
      modifies this
      ensures Idle() && apiKey == old(apiKey)
      ensures old(apiKey == "" || validations.Length == 0) ==> validations == old(validations) && shown == []
      ensures old(apiKey != "" && validations.Length > 0) ==>
        && fresh(validations)
        && validations[..] == Validated(old(validations[..]), outcomes)
        && |shown| == |outcomes|
        && forall k :: 0 <= k < |outcomes| ==> shown[k] == ProgressAfter(outcomes, k + 1)
    {
      if apiKey == "" || validations.Length == 0 {
        return [];
      }
      isProcessing := true;
      var rows := validations;
      var newValidations := new NumberValidation[rows.Length](k requires 0 <= k < rows.Length reads rows => rows[k]);
      shown := RunRows(rows, newValidations, outcomes);
      validations := newValidations;
      isProcessing := false;
      progress := 0;
    }

    /** `downloadResults`, up to the sheet it writes: one exported row per record in the state. */
    method DownloadResults() returns (rows: seq<ExportRow>)
      ensures rows == ExportRows(validations[..])
    {
      rows := ExportRows(validations[..]);
    }
  }
}
