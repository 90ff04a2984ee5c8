/** The purge triggered when the audit table grows past the operations
    limit (`TruncateBasedOnLimitAction.run`): the oldest rows above the
    minimum are deleted, guarded by the watcher's "removing audit records"
    flag. The database call and the logger become an event trace; how
    the delete ends is a parameter. */
module TruncateAction {
  import opened Numbers

  /** What a run does, in order: the delete issued, and the log lines with
      the numbers they report. */
  datatype Event =
    | DeleteFirstNRows(n: int)
    | LogError(db: string, recordsToRemove: int)
    | LogWarning(db: string, recordsToRemove: int, opMin: int)

  /** How the delete call ends: it succeeds, it throws the `SQLException`
      the action catches, or it throws an unchecked exception (from the
      delete or from `getDb`), which nothing in the action catches. The
      trace records the delete as attempted in every case. */
  datatype DeleteOutcome = Deleted | SqlFailure | UncheckedFailure

  /** The part of the watcher the action reads and writes. */
  datatype Watcher = Watcher(removingAuditRecords: bool, dbName: string)

  predicate IsInt(x: int)
  {
    IntMin <= x <= IntMax
  }

  /** Java `int` arithmetic: the result reduced into the 32-bit range. */
  function WrapInt(x: int): (r: int)
    ensures IsInt(r)
    ensures (r - x) % 0x1_0000_0000 == 0
    ensures IsInt(x) ==> r == x
  {
    (x - IntMin) % 0x1_0000_0000 + IntMin
  }

  /** `auditRecordCount - opMin`, as a Java `int`. */
  function RecordsToRemove(auditRecordCount: int, opMin: int): (n: int)
    requires IsInt(auditRecordCount) && IsInt(opMin)
    ensures IsInt(n)
    ensures IsInt(auditRecordCount - opMin) ==> n == auditRecordCount - opMin
    ensures 0 <= opMin <= auditRecordCount ==> n == auditRecordCount - opMin && n >= 0
  {
    WrapInt(auditRecordCount - opMin)
  }

  function Deletes(events: seq<Event>): nat
  {
    if |events| == 0 then 0
    else (if events[0].DeleteFirstNRows? then 1 else 0) + Deletes(events[1..])
  }

  function Errors(events: seq<Event>): nat
  {
    if |events| == 0 then 0
    else (if events[0].LogError? then 1 else 0) + Errors(events[1..])
  }

  /** `run`. With the flag already held nothing happens. Otherwise the flag
      is taken and one delete is issued. If the delete returns or throws a
      `SQLException`, a failure is logged as an error, the warning is
      logged and the flag is released. An unchecked exception leaves the
      method at once: nothing is logged and the flag stays held. */
  function Run(w: Watcher, auditRecordCount: int, opMin: int, outcome: DeleteOutcome)
    : (r: (Watcher, seq<Event>))
    requires IsInt(auditRecordCount) && IsInt(opMin)
    ensures w.removingAuditRecords ==> r == (w, [])
    ensures !w.removingAuditRecords ==>
      var n := RecordsToRemove(auditRecordCount, opMin);
      && r.0.dbName == w.dbName
      && |r.1| > 0
      && r.1[0] == DeleteFirstNRows(n)
      && Deletes(r.1) == 1
      && (r.0.removingAuditRecords <==> outcome.UncheckedFailure?)
      && Errors(r.1) == (if outcome.SqlFailure? then 1 else 0)
      && (outcome.UncheckedFailure? ==> |r.1| == 1)
      && (!outcome.UncheckedFailure? ==> r.1[|r.1| - 1] == LogWarning(w.dbName, n, opMin))
  {
    var recordsToRemove := RecordsToRemove(auditRecordCount, opMin);
    if w.removingAuditRecords then (w, [])
    else
      var taken := w.(removingAuditRecords := true);
      var deleted := [DeleteFirstNRows(recordsToRemove)];
      if outcome.UncheckedFailure? then (taken, deleted)
      else
        var errors := if outcome.SqlFailure? then [LogError(taken.dbName, recordsToRemove)] else [];
        var events := deleted + errors + [LogWarning(taken.dbName, recordsToRemove, opMin)];
        CountsAppend(deleted, errors);
        CountsAppend(deleted + errors, [LogWarning(taken.dbName, recordsToRemove, opMin)]);
        (taken.(removingAuditRecords := false), events)
  }

  lemma {:induction false} CountsAppend(a: seq<Event>, b: seq<Event>)
    ensures Deletes(a + b) == Deletes(a) + Deletes(b)
    ensures Errors(a + b) == Errors(a) + Errors(b)
    decreases |a|
  {
    if |a| == 0 {
      assert a + b == b;
    } else {
      assert (a + b)[1..] == a[1..] + b;
      CountsAppend(a[1..], b);
    }
  }

  /** Runs one after another, each with its own delete outcome. */
  function RunAll(w: Watcher, auditRecordCount: int, opMin: int, outcomes: seq<DeleteOutcome>)
    : (r: (Watcher, seq<Event>))
    requires IsInt(auditRecordCount) && IsInt(opMin)
    decreases |outcomes|
  {
    if |outcomes| == 0 then (w, [])
    else
      var first := Run(w, auditRecordCount, opMin, outcomes[0]);
      var rest := RunAll(first.0, auditRecordCount, opMin, outcomes[1..]);
      (rest.0, first.1 + rest.1)
  }

  /** The number of deletes that throw a `SQLException`. */
  function Failures(outcomes: seq<DeleteOutcome>): nat
  {
    if |outcomes| == 0 then 0 else (if outcomes[0].SqlFailure? then 1 else 0) + Failures(outcomes[1..])
  }

  /** No delete throws an unchecked exception. */
  predicate Caught(outcomes: seq<DeleteOutcome>)
  {
    forall k :: 0 <= k < |outcomes| ==> !outcomes[k].UncheckedFailure?
  }

  /** Run one after another with every failure a `SQLException`, the flag
      never blocks: it is released on both the success and the failure
      path, so every run deletes once and logs one error per failed delete,
      and the flag ends free. */
  lemma {:induction false} SequentialRunsAllDelete(w: Watcher, auditRecordCount: int, opMin: int, outcomes: seq<DeleteOutcome>)
    requires IsInt(auditRecordCount) && IsInt(opMin)
    requires !w.removingAuditRecords
    requires Caught(outcomes)
    ensures var r := RunAll(w, auditRecordCount, opMin, outcomes);
      && r.0 == w
      && Deletes(r.1) == |outcomes|
      && Errors(r.1) == Failures(outcomes)
    decreases |outcomes|
  {
    if |outcomes| > 0 {
      var first := Run(w, auditRecordCount, opMin, outcomes[0]);
      SequentialRunsAllDelete(first.0, auditRecordCount, opMin, outcomes[1..]);
      CountsAppend(first.1, RunAll(first.0, auditRecordCount, opMin, outcomes[1..]).1);
    }
  }

  /** While the flag is held (a purge in progress), any number of runs do
      nothing at all. */
  lemma {:induction false} HeldFlagBlocksAll(w: Watcher, auditRecordCount: int, opMin: int, outcomes: seq<DeleteOutcome>)
    requires IsInt(auditRecordCount) && IsInt(opMin)
    requires w.removingAuditRecords
    ensures RunAll(w, auditRecordCount, opMin, outcomes) == (w, [])
    decreases |outcomes|
  {
    if |outcomes| > 0 {
      assert Run(w, auditRecordCount, opMin, outcomes[0]) == (w, []);
      HeldFlagBlocksAll(w, auditRecordCount, opMin, outcomes[1..]);
      var none: seq<Event> := [];
      assert none + none == none;
    }
  }

  /** The first unchecked exception ends all purging: the flag stays held,
      so the runs after it do nothing. Exactly the runs up to and including
      the failing one delete, and only their `SQLException`s are logged. */
  lemma {:induction false} UncheckedFailureBlocksLaterRuns(w: Watcher, auditRecordCount: int, opMin: int,
                                                           outcomes: seq<DeleteOutcome>, k: nat)
    requires IsInt(auditRecordCount) && IsInt(opMin)
    requires !w.removingAuditRecords
    requires k < |outcomes| && outcomes[k].UncheckedFailure? && Caught(outcomes[..k])
    ensures var r := RunAll(w, auditRecordCount, opMin, outcomes);
      && r.0 == w.(removingAuditRecords := true)
      && Deletes(r.1) == k + 1
      && Errors(r.1) == Failures(outcomes[..k])
    decreases k
  {
    var first := Run(w, auditRecordCount, opMin, outcomes[0]);
    var rest := RunAll(first.0, auditRecordCount, opMin, outcomes[1..]);
    if k == 0 {
      assert first.0 == w.(removingAuditRecords := true);
      HeldFlagBlocksAll(first.0, auditRecordCount, opMin, outcomes[1..]);
      assert outcomes[..0] == [];
    } else {
      assert !outcomes[0].UncheckedFailure? by { assert outcomes[..k][0] == outcomes[0]; }
      assert first.0 == w;
      assert outcomes[1..][..k - 1] == outcomes[..k][1..];
      UncheckedFailureBlocksLaterRuns(w, auditRecordCount, opMin, outcomes[1..], k - 1);
      assert Failures(outcomes[..k]) == (if outcomes[0].SqlFailure? then 1 else 0) + Failures(outcomes[1..][..k - 1]);
    }
    CountsAppend(first.1, rest.1);
  }
}
