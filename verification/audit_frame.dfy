/** One rendered change (`AuditFrame`): the audit record, its diff, the
    database it came from and the table columns built from the diff. */
module AuditFrame {
  import opened Results
  import opened Diff

  const IntMin: int := -0x8000_0000
  const IntMax: int := 0x7FFF_FFFF

  /** A row of the audit table. Only the operation and the timestamp (in
      milliseconds) are inspected by the modelled code. */
  datatype AuditRecord = AuditRecord(
    id: int,
    tableName: string,
    operation: Operation,
    oldData: string,
    newData: string,
    timestamp: int)

  /** The frame's fields; Java's `null` is `None`. `D` is the database the
      frame came from, `V` the type of a parsed column value. */
  datatype AuditFrame<V, D> = AuditFrame(
    auditRecord: Option<AuditRecord>,
    diff: Option<Diff<V>>,
    db: Option<D>,
    stateColumns: Option<seq<StateColumn>>,
    timeSincePrevious: Option<string>,
    frameNo: int)

  /** A newly created frame: every reference `null`, the frame number 0. */
  function NewFrame<V, D>(): AuditFrame<V, D>
  {
    AuditFrame(None, None, None, None, None, 0)
  }

  function SetAuditRecord<V, D>(f: AuditFrame<V, D>, record: Option<AuditRecord>): (r: AuditFrame<V, D>)
    ensures r.auditRecord == record
    ensures r.diff == f.diff && r.db == f.db && r.stateColumns == f.stateColumns
    ensures r.timeSincePrevious == f.timeSincePrevious && r.frameNo == f.frameNo
  {
    f.(auditRecord := record)
  }

  function SetDb<V, D>(f: AuditFrame<V, D>, db: Option<D>): (r: AuditFrame<V, D>)
    ensures r.db == db
    ensures r.auditRecord == f.auditRecord && r.diff == f.diff && r.stateColumns == f.stateColumns
    ensures r.timeSincePrevious == f.timeSincePrevious && r.frameNo == f.frameNo
  {
    f.(db := db)
  }

  function SetFrameNo<V, D>(f: AuditFrame<V, D>, frameNo: int): (r: AuditFrame<V, D>)
    requires IntMin <= frameNo <= IntMax
    ensures r.frameNo == frameNo
    ensures r.auditRecord == f.auditRecord && r.diff == f.diff && r.db == f.db
    ensures r.stateColumns == f.stateColumns && r.timeSincePrevious == f.timeSincePrevious
  {
    f.(frameNo := frameNo)
  }

  function SetTimeSincePrevious<V, D>(f: AuditFrame<V, D>, timeSincePrevious: Option<string>): (r: AuditFrame<V, D>)
    ensures r.timeSincePrevious == timeSincePrevious
    ensures r.auditRecord == f.auditRecord && r.diff == f.diff && r.db == f.db
    ensures r.stateColumns == f.stateColumns && r.frameNo == f.frameNo
  {
    f.(timeSincePrevious := timeSincePrevious)
  }

  /** The column that `createStateColumns` builds for `name`: both sides
      looked up and stringified, then compared. */
  function ColumnFor<V>(name: string, oldState: State<V>, newState: State<V>,
                        toStr: Option<V> -> string,
                        measure: (string, string, string) -> nat,
                        differ: (string, string) -> bool): StateColumn
  {
    Compare(NewStateColumn(name, toStr(Get(oldState, name)), toStr(Get(newState, name)), measure), differ)
  }

  /** The columns for `names` once both states are at hand, in order. */
  function Columns<V>(names: seq<string>, oldState: State<V>, newState: State<V>,
                      toStr: Option<V> -> string,
                      measure: (string, string, string) -> nat,
                      differ: (string, string) -> bool): (r: seq<StateColumn>)
    ensures |r| == |names|
    ensures forall i :: 0 <= i < |names| ==>
      r[i] == ColumnFor(names[i], oldState, newState, toStr, measure, differ)
  {
    if |names| == 0 then []
    else [ColumnFor(names[0], oldState, newState, toStr, measure, differ)]
         + Columns(names[1..], oldState, newState, toStr, measure, differ)
  }

  /** The loop of `createStateColumns` over `names`. Each iteration reads
      both states through their getters, so a side that was never parsed,
      or that holds a `null` value, throws as soon as there is a name to
      look up. */
  function BuildColumns<V>(names: seq<string>, d: Diff<V>,
                           toStr: Option<V> -> string,
                           measure: (string, string, string) -> nat,
                           differ: (string, string) -> bool): (r: Result<seq<StateColumn>, Error>)
    ensures r.Failure? <==> |names| > 0 && (!Readable(d.oldState) || !Readable(d.newState))
    ensures r.Success? ==> |r.value| == |names|
    ensures r.Success? && |names| > 0 ==> forall i :: 0 <= i < |names| ==>
      r.value[i] == ColumnFor(names[i], GetOldState(d).value, GetNewState(d).value, toStr, measure, differ)
  {
    if |names| == 0 then Success([])
    else
      var oldState :- GetOldState(d);
      var newState :- GetNewState(d);
      Success(Columns(names, oldState, newState, toStr, measure, differ))
  }

  /** `createStateColumns`: one compared column per name the operation
      shows, in the key set's iteration order; the frame's other fields are
      kept. A missing record or diff, a state that was never parsed or a
      `null` value in a state read is a `NullPointerException`. The source
      has already replaced the frame's columns by an empty list when it
      throws; the failure carries no frame, so that empty list is not
      modelled. */
  function CreateStateColumns<V, D>(f: AuditFrame<V, D>,
                                    toStr: Option<V> -> string,
                                    measure: (string, string, string) -> nat,
                                    differ: (string, string) -> bool): (r: Result<AuditFrame<V, D>, Error>)
    ensures r.Success? ==> r.value.stateColumns.Some?
    ensures r.Success? ==> r.value.(stateColumns := f.stateColumns) == f
  {
    if f.auditRecord.None? || f.diff.None? then Failure(NullPointer)
    else
      var names :- GetStateColumnNames(f.diff.value, f.auditRecord.value.operation);
      var columns :- BuildColumns(names, f.diff.value, toStr, measure, differ);
      Success(f.(stateColumns := Some(columns)))
  }

  /** What `createStateColumns` produces, and when it throws: it succeeds
      exactly when the record and diff are set, the shown state is parsed
      without a `null` value, and (if that state has any column) so is the
      other one. The columns
      then correspond one to one, in order, to the shown state's columns,
      carry the stringified lookups of their name on each side and have been
      compared; no name appears twice. */
  lemma CreateStateColumnsSpec<V, D>(f: AuditFrame<V, D>,
                                     toStr: Option<V> -> string,
                                     measure: (string, string, string) -> nat,
                                     differ: (string, string) -> bool)
    requires f.auditRecord.Some? && f.diff.Some?
    ensures var d := f.diff.value;
      var shown := Shown(d, f.auditRecord.value.operation);
      var ok := Readable(shown) && (|shown.value| > 0 ==> Readable(d.oldState) && Readable(d.newState));
      CreateStateColumns(f, toStr, measure, differ).Success? <==> ok
    ensures var d := f.diff.value;
      var shown := Shown(d, f.auditRecord.value.operation);
      var r := CreateStateColumns(f, toStr, measure, differ);
      r.Success? ==>
        && |r.value.stateColumns.value| == |shown.value|
        && (forall i :: 0 <= i < |shown.value| ==>
              var c := r.value.stateColumns.value[i];
              && c.name == shown.value[i].0
              && c.oldValue == toStr(Get(GetOldState(d).value, c.name))
              && c.newValue == toStr(Get(GetNewState(d).value, c.name))
              && c.hasDiff == differ(c.oldValue, c.newValue)
              && !c.cut
              && c.maxLength == measure(c.name, c.oldValue, c.newValue))
        && (forall i, j :: 0 <= i < j < |shown.value| ==>
              r.value.stateColumns.value[i].name != r.value.stateColumns.value[j].name)
  {
    var d := f.diff.value;
    var names := GetStateColumnNames(d, f.auditRecord.value.operation);
    if names.Success? {
      var cols := BuildColumns(names.value, d, toStr, measure, differ);
      if cols.Success? && |names.value| > 0 {
        forall i | 0 <= i < |names.value|
          ensures cols.value[i].name == names.value[i]
        {
          assert cols.value[i] == ColumnFor(names.value[i], GetOldState(d).value, GetNewState(d).value, toStr, measure, differ);
        }
      }
    }
  }
}
