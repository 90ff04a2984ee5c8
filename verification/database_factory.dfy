/** `DatabaseFactory.getDatabase`: the configured type string chooses the
    dialect. The type strings of `DatabaseType` are parameters. */
module DatabaseFactory {
  import opened Results
  import opened Database
  import Postgres
  import Orcl

  datatype Dialect = PostgresDialect | OrclDialect

  /** A dialect object holding its configuration. */
  datatype Db = Db(dialect: Dialect, config: DbConfig)

  /** The PostgreSQL type is checked first, then the Oracle one; any other
      type is an error. */
  function GetDatabase(config: DbConfig, postgresType: string, orclType: string): (r: Result<Db, DbError>)
    ensures r.Success? <==> config.dbType == postgresType || config.dbType == orclType
    ensures r.Success? ==> r.value.config == config
    ensures r.Success? ==> (r.value.dialect == PostgresDialect <==> config.dbType == postgresType)
    ensures r.Failure? ==> r.error == UnknownDbType
  {
    if config.dbType == postgresType then Success(Db(PostgresDialect, config))
    else if config.dbType == orclType then Success(Db(OrclDialect, config))
    else Failure(UnknownDbType)
  }

  /** Only the type decides: configurations of the same type get the same
      dialect, or fail alike. */
  lemma DispatchOnlyByType(a: DbConfig, b: DbConfig, postgresType: string, orclType: string)
    requires a.dbType == b.dbType
    ensures GetDatabase(a, postgresType, orclType).Success? == GetDatabase(b, postgresType, orclType).Success?
    ensures GetDatabase(a, postgresType, orclType).Success? ==>
      GetDatabase(a, postgresType, orclType).value.dialect == GetDatabase(b, postgresType, orclType).value.dialect
  {
  }

  /** Were the two type strings equal, PostgreSQL would win. */
  lemma PostgresTakesPrecedence(config: DbConfig, dbType: string)
    requires config.dbType == dbType
    ensures GetDatabase(config, dbType, dbType) == Success(Db(PostgresDialect, config))
  {
  }

  /** The connection string of the chosen dialect. */
  function ConnectionString(db: Db): Option<string>
  {
    match db.dialect
    case PostgresDialect => Some(Postgres.ConnectionString(db.config))
    case OrclDialect => Orcl.ConnectionString(db.config)
  }

  /** With a configured connection string both dialects connect to it;
      without one only PostgreSQL can build a URL, and Oracle passes the
      missing (null) string on as it is. */
  lemma ConnectionStringByDialect(config: DbConfig, postgresType: string, orclType: string)
    requires GetDatabase(config, postgresType, orclType).Success?
    ensures var db := GetDatabase(config, postgresType, orclType).value;
      && (config.connectionString.Some? ==> ConnectionString(db) == config.connectionString)
      && (config.connectionString.None? ==> (ConnectionString(db).Some? <==> config.dbType == postgresType))
      && (db.dialect == OrclDialect ==> ConnectionString(db) == config.connectionString)
  {
  }
}
