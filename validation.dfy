/** What one validation run does to the list of records, as functions of the list and of
    the outcome of each row's request. */
module Validation {
  import opened Optional
  import opened Records

  /** The new record of one row: a response's `numberstatus` and `error` replace the row's
      status and error (absent fields make them absent); a thrown request records
      `false` and "Failed to validate". The number never changes. */
  function ApplyOutcome(v: NumberValidation, o: Outcome): (w: NumberValidation)
    ensures w.number == v.number
  {
    match o
    case Response(st, err) => v.(status := st, error := err)
    case Failure => v.(status := Some(false), error := Some(FailedToValidate))
  }

  /** The working copy after the first `i` rows are done: rows before `i` carry their
      outcome, the others are as they were. */
  function PartialRun(vs: seq<NumberValidation>, outcomes: seq<Outcome>, i: nat): (r: seq<NumberValidation>)
    requires |outcomes| == |vs| && i <= |vs|
    ensures |r| == |vs|
  {
    seq(|vs|, k requires 0 <= k < |vs| => if k < i then ApplyOutcome(vs[k], outcomes[k]) else vs[k])
  }

  /** The working copy once every row is done. */
  function Validated(vs: seq<NumberValidation>, outcomes: seq<Outcome>): (r: seq<NumberValidation>)
    requires |outcomes| == |vs|
    ensures |r| == |vs| && Numbers(r) == Numbers(vs)
    ensures forall k :: 0 <= k < |vs| && outcomes[k].Failure? ==>
      r[k].status == Some(false) && r[k].error == Some(FailedToValidate)
    ensures forall k :: 0 <= k < |vs| && outcomes[k].Response? ==>
      r[k].status == outcomes[k].numberstatus && r[k].error == outcomes[k].error
  {
    PartialRun(vs, outcomes, |vs|)
  }

  /** Nothing is done before the first row. (An unfolding of `PartialRun`'s definition,
      stated for the reader; it adds nothing beyond the definition.) */
  lemma PartialRunStart(vs: seq<NumberValidation>, outcomes: seq<Outcome>)
    requires |outcomes| == |vs|
    ensures PartialRun(vs, outcomes, 0) == vs
  {
  }

  /** Step `i` writes row `i` only, from row `i`'s own outcome; the rows before keep their
      results and the rows after are still untouched. (An unfolding of `PartialRun`'s
      definition, stated for the reader; it adds nothing beyond the definition.) */
  lemma PartialRunStep(vs: seq<NumberValidation>, outcomes: seq<Outcome>, i: nat)
    requires |outcomes| == |vs| && i < |vs|
    ensures PartialRun(vs, outcomes, i + 1) == PartialRun(vs, outcomes, i)[i := ApplyOutcome(vs[i], outcomes[i])]
  {
  }

  /** Whether at least one request of the run produced a response. */
  predicate AnyResponse(outcomes: seq<Outcome>) {
    exists k :: 0 <= k < |outcomes| && outcomes[k].Response?
  }

  /** One more outcome gives a response somewhere iff the earlier ones did or it is one. */
  lemma AnyResponseSnoc(s: seq<Outcome>, o: Outcome)
    ensures AnyResponse(s + [o]) <==> AnyResponse(s) || o.Response?
  {
    if o.Response? {
      assert (s + [o])[|s|] == o;
    }
    if AnyResponse(s) {
      var k :| 0 <= k < |s| && s[k].Response?;
      assert (s + [o])[k] == s[k];
    }
  }

  /** The list the page's state holds after a run, as the code is written: the state is only
      ever pointed at the working copy when a response arrives, so a run in which every request
      throws leaves the previous list in place. */
  function Published(vs: seq<NumberValidation>, outcomes: seq<Outcome>): (r: seq<NumberValidation>)
    requires |outcomes| == |vs|
    ensures |r| == |vs| && Numbers(r) == Numbers(vs)
    ensures forall k :: 0 <= k < |vs| ==> r[k] == vs[k] || r[k] == ApplyOutcome(vs[k], outcomes[k])
    ensures AnyResponse(outcomes) ==> forall k :: 0 <= k < |vs| ==>
      && (outcomes[k].Failure? ==> r[k].status == Some(false) && r[k].error == Some(FailedToValidate))
      && (outcomes[k].Response? ==> r[k].status == outcomes[k].numberstatus && r[k].error == outcomes[k].error)
    ensures !AnyResponse(outcomes) ==> forall k :: 0 <= k < |vs| ==>
      r[k].status == vs[k].status && r[k].error == vs[k].error
  {
    if AnyResponse(outcomes) then Validated(vs, outcomes) else vs
  }

  /** The defect: for a fresh upload (no statuses yet) where every request throws, the state
      keeps the list without any status, although the loop recorded a failure on every row. */
  lemma AllFailuresUnpublished(vs: seq<NumberValidation>, outcomes: seq<Outcome>)
    requires |outcomes| == |vs| > 0
    requires forall k :: 0 <= k < |vs| ==> vs[k].status == None && outcomes[k] == Failure
    ensures Published(vs, outcomes) == vs
    ensures Validated(vs, outcomes)[0].status == Some(false) != Published(vs, outcomes)[0].status
  {
  }

  /** A concrete witness: one number, one request that throws. */
  lemma OneFailedRowUnpublished()
    ensures var vs := [NumberValidation("15550100", None, None)];
      Published(vs, [Failure])[0].status == None
      && Validated(vs, [Failure])[0] == NumberValidation("15550100", Some(false), Some(FailedToValidate))
  {
    AllFailuresUnpublished([NumberValidation("15550100", None, None)], [Failure]);
  }
}
