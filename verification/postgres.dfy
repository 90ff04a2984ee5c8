/** The PostgreSQL dialect (`Postgres`): its connection URL, the name of a
    table's audit trigger, the recovery of table names from the trigger
    names found in the database, and the teardown order of `clean`. */
module Postgres {
  import opened Results
  import opened Text
  import opened Numbers
  import opened Database

  const TriggerPrefix: string := "dbw"
  const TriggerPostfix: string := "audit"
  const Underscore: char := '_'

  /** `getConnectionString`: the configured string when there is one, else
      a JDBC URL assembled from the type, host, port and database name. */
  function ConnectionString(config: DbConfig): (r: string)
    ensures config.connectionString.Some? ==> r == config.connectionString.value
    ensures config.connectionString.None? ==> |r| >= 5 && r[..5] == "jdbc:"
  {
    match config.connectionString
    case Some(s) => s
    case None =>
      "jdbc:" + config.dbType + "://" + config.host + ":" + config.port + "/" + config.name
  }

  /** The assembled URL can be taken apart again: split on `/` it gives
      `jdbc:<type>:`, the empty piece between the two slashes, `<host>:<port>`
      and the database name, provided no field holds a slash and the name
      is not empty. */
  lemma ConnectionStringFields(config: DbConfig)
    requires config.connectionString.None?
    requires '/' !in config.dbType && '/' !in config.host && '/' !in config.port && '/' !in config.name
    requires config.name != []
    ensures JavaSplit(ConnectionString(config), '/')
      == ["jdbc:" + config.dbType + ":", "", config.host + ":" + config.port, config.name]
  {
    var pieces := ["jdbc:" + config.dbType + ":", "", config.host + ":" + config.port, config.name];
    assert '/' !in "jdbc:" + config.dbType + ":" by {
      assert forall k :: 0 <= k < 5 ==> "jdbc:"[k] != '/';
    }
    assert '/' !in config.host + ":" + config.port;
    assert Join(pieces[2..], '/') == pieces[2] + "/" + pieces[3];
    assert Join(pieces[1..], '/') == "" + "/" + Join(pieces[2..], '/');
    assert Join(pieces, '/') == ConnectionString(config);
    JavaSplitJoin(pieces, '/');
  }

  /** The trigger name checked for a table: `dbw_<table>_audit`. */
  function AuditTriggerName(table: string): string
  {
    TriggerPrefix + [Underscore] + table + [Underscore] + TriggerPostfix
  }

  /** One step of `selectAuditTriggers`: the second `_`-separated piece of
      a trigger name (`split("_")[1]`); a name with fewer pieces throws. */
  function ExtractTableName(triggerName: string): (r: Result<string, DbError>)
    ensures r.Failure? <==> |JavaSplit(triggerName, Underscore)| < 2
    ensures r.Failure? ==> r.error == ArrayIndexOutOfBounds
    ensures r.Success? ==> Underscore !in r.value && Underscore in triggerName
    ensures r.Success? ==> exists p, q :: SecondPieceLayout(triggerName, Underscore, p, r.value, q)
  {
    var pieces := JavaSplit(triggerName, Underscore);
    if |pieces| < 2 then Failure(ArrayIndexOutOfBounds)
    else
      JavaSplitSecondPiece(triggerName, Underscore);
      Success(pieces[1])
  }

  /** Java's `split` on a few edge shapes: an empty second piece is kept
      when more follows, a leading `_` leaves an empty first piece, and a
      trailing `_` adds nothing; a name without `_` has no second piece. */
  lemma ExtractTableNameEdges()
    ensures ExtractTableName("a__b") == Success("")
    ensures ExtractTableName("_b") == Success("b")
    ensures ExtractTableName("a_b_") == Success("b")
    ensures ExtractTableName("ab") == Failure(ArrayIndexOutOfBounds)
  {
    SplitAllNoSeparator("b", Underscore);
    SplitAllNoSeparator("", Underscore);
    SplitAllAt("", "b", Underscore);
    assert "_b" == "" + [Underscore] + "b";
    SplitAllAt("a", "_b", Underscore);
    assert "a__b" == "a" + [Underscore] + "_b";
    SplitAllAt("b", "", Underscore);
    assert "b_" == "b" + [Underscore] + "";
    SplitAllAt("a", "b_", Underscore);
    assert "a_b_" == "a" + [Underscore] + "b_";
    assert StripTrailingEmpty(["a", "b", ""]) == ["a", "b"];
    assert Underscore !in "ab";
  }

  /** `selectAuditTriggers`: the table name of every trigger, in order. */
  function SelectAuditTriggers(triggerNames: seq<string>): (r: Result<seq<string>, DbError>)
    ensures r.Success? <==>
      && |triggerNames| <= ShortMax
      && forall k :: 0 <= k < |triggerNames| ==> |JavaSplit(triggerNames[k], Underscore)| >= 2
    ensures r.Success? ==> |r.value| == |triggerNames|
    ensures r.Success? ==> forall k :: 0 <= k < |triggerNames| ==>
      ExtractTableName(triggerNames[k]) == Success(r.value[k])
  {
    SelectNames(triggerNames, ExtractTableName)
  }

  /** From a trigger name built for a table, extraction recovers the part
      of the table name before its first `_`. */
  lemma ExtractFromTriggerName(table: string)
    ensures ExtractTableName(AuditTriggerName(table)) == Success(SplitAll(table, Underscore)[0])
  {
    var head := TriggerPrefix + [Underscore] + table;
    var name := AuditTriggerName(table);
    assert name == head + [Underscore] + TriggerPostfix;
    assert Underscore !in TriggerPostfix;
    assert Underscore !in TriggerPrefix;
    SplitAllSnoc(head, TriggerPostfix, Underscore);
    SplitAllAt(TriggerPrefix, table, Underscore);
    var pieces := [TriggerPrefix] + SplitAll(table, Underscore) + [TriggerPostfix];
    assert SplitAll(name, Underscore) == pieces;
    assert name[|head|] == Underscore;
    assert JavaSplit(name, Underscore) == pieces;
  }

  /** The trigger name of a table gives the table back exactly when the
      table name contains no `_`. */
  lemma TriggerNameRoundTripIff(table: string)
    ensures ExtractTableName(AuditTriggerName(table)) == Success(table) <==> Underscore !in table
  {
    ExtractFromTriggerName(table);
    if Underscore in table {
      SplitAllFirstShorter(table, Underscore);
    } else {
      SplitAllNoSeparator(table, Underscore);
    }
  }

  /** Table names without `_` survive the trip through their trigger names,
      in order, as long as a `short` can count them. */
  lemma SelectAuditTriggersOfTables(tables: seq<string>)
    requires |tables| <= ShortMax
    requires forall k :: 0 <= k < |tables| ==> Underscore !in tables[k]
    ensures SelectAuditTriggers(seq(|tables|, k requires 0 <= k < |tables| => AuditTriggerName(tables[k])))
      == Success(tables)
  {
    var names := seq(|tables|, k requires 0 <= k < |tables| => AuditTriggerName(tables[k]));
    forall k | 0 <= k < |tables|
      ensures ExtractTableName(names[k]) == Success(tables[k])
    {
      TriggerNameRoundTripIff(tables[k]);
    }
    var r := SelectAuditTriggers(names);
    assert r.value == tables;
  }

  /** `clean`: the watched tables' triggers in list order, then the audit
      function, then the audit table. */
  method Clean(watchedTables: seq<string>) returns (trace: seq<DbOp>)
    ensures |trace| == |watchedTables| + 2
    ensures forall k :: 0 <= k < |watchedTables| ==> trace[k] == DropAuditTrigger(watchedTables[k])
    ensures trace[|watchedTables|] == DropAuditFunction
    ensures trace[|watchedTables| + 1] == DropAuditTable
  {
    trace := DropTriggersThen(watchedTables, [DropAuditFunction, DropAuditTable]);
    assert trace[|watchedTables|..][0] == DropAuditFunction;
    assert trace[|watchedTables|..][1] == DropAuditTable;
  }
}
