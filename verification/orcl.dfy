/** The Oracle dialect (`Orcl`): the configured connection string, the
    audit trigger name of a table, the recovery of table names by removing
    the trigger-name affixes, and the teardown order of `clean`. The affixes
    are the shared `DBW_PREFIX` and `AUDIT_POSTFIX` constants, whose values
    are parameters here. */
module Orcl {
  import opened Results
  import opened Text
  import opened Numbers
  import opened Database

  /** `getConnectionString`: the configured string as it is, possibly
      null; the host, port and name play no part. */
  function ConnectionString(config: DbConfig): (r: Option<string>)
    ensures r == config.connectionString
  {
    config.connectionString
  }

  /** Two configurations with the same connection string connect alike,
      whatever their other fields. */
  lemma ConnectionStringOnlyFromOverride(a: DbConfig, b: DbConfig)
    requires a.connectionString == b.connectionString
    ensures ConnectionString(a) == ConnectionString(b)
  {
  }

  /** The trigger name checked for a table. */
  function AuditTriggerName(prefix: string, table: string, postfix: string): string
  {
    prefix + table + postfix
  }

  /** One step of `selectAuditTriggers`: every occurrence of the prefix
      removed, then every occurrence of the postfix. */
  function ExtractTableName(prefix: string, postfix: string, triggerName: string): (r: string)
    ensures |prefix| > 0 && |postfix| > 0 ==> |r| <= |triggerName|
    ensures |prefix| > 0 && |postfix| > 0 && Absent(triggerName, prefix) && Absent(triggerName, postfix) ==>
      r == triggerName
  {
    ExtractBounds(prefix, postfix, triggerName);
    RemoveAll(RemoveAll(triggerName, prefix), postfix)
  }

  lemma ExtractBounds(prefix: string, postfix: string, triggerName: string)
    ensures var r := RemoveAll(RemoveAll(triggerName, prefix), postfix);
      && (|prefix| > 0 && |postfix| > 0 ==> |r| <= |triggerName|)
      && (|prefix| > 0 && |postfix| > 0 && Absent(triggerName, prefix) && Absent(triggerName, postfix) ==>
            r == triggerName)
  {
    if |prefix| > 0 && |postfix| > 0 {
      var withoutPrefix := RemoveAll(triggerName, prefix);
      RemoveAllNotLonger(triggerName, prefix);
      RemoveAllNotLonger(withoutPrefix, postfix);
      RemoveAllIdentityIff(triggerName, prefix);
      RemoveAllIdentityIff(triggerName, postfix);
    }
  }

  /** `selectAuditTriggers`: the table name of every trigger, in order;
      removal cannot fail, so only the `short` counter can. */
  function SelectAuditTriggers(prefix: string, postfix: string, triggerNames: seq<string>)
    : (r: Result<seq<string>, DbError>)
    ensures r.Success? <==> |triggerNames| <= ShortMax
    ensures r.Failure? ==> r.error == IndexOutOfBounds
    ensures r.Success? ==> |r.value| == |triggerNames|
    ensures r.Success? ==> forall k :: 0 <= k < |triggerNames| ==>
      r.value[k] == ExtractTableName(prefix, postfix, triggerNames[k])
  {
    var extract := (name: string) => Success(ExtractTableName(prefix, postfix, name));
    var r := SelectNames(triggerNames, extract);
    assert r.Failure? ==> r.error == IndexOutOfBounds by {
      SelectNeverFailsOtherwise(triggerNames, extract, 0);
    }
    r
  }

  lemma {:induction false} SelectNeverFailsOtherwise(names: seq<string>, extract: string -> Result<string, DbError>, i: nat)
    requires i <= |names|
    requires forall name :: extract(name).Success?
    ensures SelectFrom(names, extract, i).Failure? ==> SelectFrom(names, extract, i).error == IndexOutOfBounds
    decreases |names| - i
  {
    if i <= ShortMax && i < |names| {
      SelectNeverFailsOtherwise(names, extract, i + 1);
    }
  }

  /** Extraction gives the table back when removing the prefix touches only
      the leading prefix, and the first postfix found is the trailing one.
      Both conditions concern the table name joined to the postfix: an
      occurrence can straddle the boundary even when the table name alone
      holds neither affix. */
  lemma RoundTrip(prefix: string, table: string, postfix: string)
    requires |prefix| > 0 && |postfix| > 0
    requires Absent(table + postfix, prefix)
    requires forall i: nat :: i < |table| ==> !OccursAt(table + postfix, postfix, i)
    ensures ExtractTableName(prefix, postfix, AuditTriggerName(prefix, table, postfix)) == table
  {
    var name := AuditTriggerName(prefix, table, postfix);
    assert name == prefix + (table + postfix);
    assert OccursAt(name, prefix, 0);
    assert name[|prefix|..] == table + postfix;
    ReplaceAllAbsent(table + postfix, prefix, []);
    assert RemoveAll(name, prefix) == table + postfix;
    ReplaceAllFirstAtEnd(table, postfix, []);
    assert table + [] == table;
  }

  /** With the affixes `DBW_` and `_AUDIT`, table `XDBW` holds neither, yet
      its trigger name `DBW_XDBW_AUDIT` loses a second `DBW_` across the
      boundary and comes back as `XAUDIT`. */
  lemma StraddlingPrefix(prefix: string, table: string, postfix: string)
    requires prefix == "DBW_" && table == "XDBW" && postfix == "_AUDIT"
    ensures Absent(table, prefix) && Absent(table, postfix)
    ensures ExtractTableName(prefix, postfix, AuditTriggerName(prefix, table, postfix)) == "XAUDIT"
  {
    var tail := "AUDIT";
    AbsentFacts(prefix, table, postfix, tail);
    assert AuditTriggerName(prefix, table, postfix) == prefix + (['X'] + (prefix + tail));
    assert (['X'] + (prefix + tail))[0] != prefix[0];
    SecondPrefixRemoved(prefix, 'X', tail, postfix);
  }

  /** The trigger name `prefix c prefix tail` loses both prefixes. */
  lemma SecondPrefixRemoved(prefix: string, c: char, tail: string, postfix: string)
    requires |prefix| > 0 && |postfix| > 0
    requires !OccursAt([c] + (prefix + tail), prefix, 0)
    requires Absent(tail, prefix) && Absent([c] + tail, postfix)
    ensures ExtractTableName(prefix, postfix, prefix + ([c] + (prefix + tail))) == [c] + tail
  {
    RemoveLeading(prefix, [c] + (prefix + tail));
    RemoveSkip(c, prefix + tail, prefix);
    RemoveLeading(prefix, tail);
    ReplaceAllAbsent(tail, prefix, []);
    ReplaceAllAbsent([c] + tail, postfix, []);
  }

  lemma AbsentFacts(prefix: string, table: string, postfix: string, tail: string)
    requires prefix == "DBW_" && table == "XDBW" && postfix == "_AUDIT" && tail == "AUDIT"
    ensures Absent(table, prefix) && Absent(table, postfix)
    ensures Absent(tail, prefix) && Absent(['X'] + tail, postfix)
  {
    assert !OccursAt(table, prefix, 0) by { assert table[0] != prefix[0]; }
    assert !OccursAt(tail, prefix, 0) by { assert tail[0] != prefix[0]; }
    assert !OccursAt(tail, prefix, 1) by { assert tail[1] != prefix[0]; }
    assert !OccursAt(['X'] + tail, postfix, 0) by { assert (['X'] + tail)[0] != postfix[0]; }
  }

  /** `clean`: the watched tables' triggers in list order, then the audit
      table; unlike PostgreSQL there is no audit function to drop. */
  method Clean(watchedTables: seq<string>) returns (trace: seq<DbOp>)
    ensures |trace| == |watchedTables| + 1
    ensures forall k :: 0 <= k < |watchedTables| ==> trace[k] == DropAuditTrigger(watchedTables[k])
    ensures trace[|watchedTables|] == DropAuditTable
    ensures DropAuditFunction !in trace
  {
    trace := DropTriggersThen(watchedTables, [DropAuditTable]);
    assert trace[|watchedTables|..][0] == DropAuditTable;
  }
}
