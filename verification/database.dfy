/** What the database dialects share: the connection configuration, the
    schema operations they issue (a trace standing for the JDBC calls),
    and the loop that turns the selected trigger names into table names. */
module Database {
  import opened Results
  import opened Numbers

  /** The database section of the configuration; `connectionString` may be
      null. The port is kept as the text it is printed as. */
  datatype DbConfig = DbConfig(
    dbType: string,
    host: string,
    port: string,
    name: string,
    user: string,
    password: string,
    connectionString: Option<string>)

  /** The statements `clean` and the purge issue, in the order issued. */
  datatype DbOp =
    | DropAuditTrigger(table: string)
    | DropAuditFunction
    | DropAuditTable

  datatype DbError =
    | ArrayIndexOutOfBounds   // a trigger name without the expected separator
    | IndexOutOfBounds        // the `short` loop counter wrapped around
    | UnknownDbType

  /** The loop of `selectAuditTriggers` from index `i` on: the counter is a
      Java `short`, so past 32767 it wraps to a negative index and the list
      lookup throws; otherwise each name is mapped in order. */
  function SelectFrom(names: seq<string>, extract: string -> Result<string, DbError>, i: nat)
    : (r: Result<seq<string>, DbError>)
    requires i <= |names|
    ensures r.Success? <==>
      && |names| <= ShortMax
      && forall k :: i <= k < |names| ==> extract(names[k]).Success?
    ensures r.Success? ==>
      && |r.value| == |names| - i
      && forall k :: 0 <= k < |r.value| ==> extract(names[i + k]) == Success(r.value[k])
    decreases |names| - i
  {
    if i > ShortMax then Failure(IndexOutOfBounds)
    else if i == |names| then Success([])
    else
      match extract(names[i])
      case Failure(e) => Failure(e)
      case Success(x) =>
        match SelectFrom(names, extract, i + 1)
        case Failure(e) => Failure(e)
        case Success(rest) => Success([x] + rest)
  }

  /** The whole list, from index 0. */
  function SelectNames(names: seq<string>, extract: string -> Result<string, DbError>)
    : (r: Result<seq<string>, DbError>)
    ensures r.Success? <==>
      && |names| <= ShortMax
      && forall k :: 0 <= k < |names| ==> extract(names[k]).Success?
    ensures r.Success? ==>
      && |r.value| == |names|
      && forall k :: 0 <= k < |names| ==> extract(names[k]) == Success(r.value[k])
  {
    SelectFrom(names, extract, 0)
  }

  /** A list longer than a `short` can count fails whatever its names. */
  lemma TooManyTriggers(names: seq<string>, extract: string -> Result<string, DbError>)
    requires |names| > ShortMax
    ensures SelectNames(names, extract).Failure?
  {
  }

  /** The trace of `clean`: the trigger of each watched table dropped in
      list order, then the statements in `tail`. */
  method DropTriggersThen(tables: seq<string>, tail: seq<DbOp>) returns (trace: seq<DbOp>)
    ensures |trace| == |tables| + |tail|
    ensures forall k :: 0 <= k < |tables| ==> trace[k] == DropAuditTrigger(tables[k])
    ensures trace[|tables|..] == tail
  {
    trace := [];
    for k := 0 to |tables|
      invariant |trace| == k
      invariant forall j :: 0 <= j < k ==> trace[j] == DropAuditTrigger(tables[j])
    {
      trace := trace + [DropAuditTrigger(tables[k])];
    }
    trace := trace + tail;
  }
}
