/** The configuration cache (`Cache`): a per-config-file record of the
    last checksum seen and the tables prepared, plus the set of config
    paths used last time. The cache itself may be absent (`Optional`);
    reading it from and writing it to disk are abstracted: a load gets the
    read's outcome as a parameter, and a persist returns the snapshot
    handed to the writer. */
module Cache {
  import opened Results

  /** The entry for one config file; a fresh entry has no checksum and no
      tables. */
  datatype ConfigCache = ConfigCache(checksum: Option<string>, tables: set<string>)

  /** `lastUsedConfigPaths` may be null, hence the `Option`. */
  datatype PersistentCache = PersistentCache(configs: map<string, ConfigCache>,
                                             lastUsedConfigPaths: Option<set<string>>)

  /** `Optional<PersistentCache>`. */
  type Cache = Option<PersistentCache>

  /** `Optional.get` on an empty cache, or on a missing entry. */
  datatype Error = NoSuchElement

  /** How reading the cache file went. */
  datatype LoadOutcome = Read(cache: PersistentCache) | FileNotFound | Unreadable

  datatype Warning = NoCacheFile

  const FreshConfig: ConfigCache := ConfigCache(None, {})
  const FreshCache: PersistentCache := PersistentCache(map[], None)

  predicate Exists(c: Cache)
  {
    c.Some?
  }

  /** `createPersistentCacheIfDoesntExist`. */
  function CreatePersistentCacheIfDoesntExist(c: Cache): (r: Cache)
    ensures Exists(r)
    ensures Exists(c) ==> r == c
    ensures !Exists(c) ==> r == Some(FreshCache)
  {
    if !Exists(c) then Some(FreshCache) else c
  }

  /** `load`: the cache read from the file, or a fresh one when the file is
      missing (with a warning) or unreadable. */
  function Load(outcome: LoadOutcome): (r: (Cache, seq<Warning>))
    ensures Exists(r.0)
    ensures outcome.Read? ==> r.0 == Some(outcome.cache)
    ensures !outcome.Read? ==> r.0 == Some(FreshCache)
    ensures r.1 == (if outcome.FileNotFound? then [NoCacheFile] else [])
  {
    var (loaded, warnings) :=
      match outcome
      case Read(pc) => (Some(pc), [])
      case FileNotFound => (None, [NoCacheFile])
      case Unreadable => (None, []);
    (CreatePersistentCacheIfDoesntExist(loaded), warnings)
  }

  /** `compareConfigFileChecksums`: whether the config file must be
      treated as changed. */
  function CompareConfigFileChecksums(c: Cache, path: string, currentChecksum: string): (areNotEqual: bool)
    ensures !areNotEqual <==>
      && Exists(c)
      && path in c.value.configs
      && c.value.configs[path].checksum == Some(currentChecksum)
  {
    if !Exists(c) then true
    else if path !in c.value.configs then true
    else
      var previousChecksum := c.value.configs[path].checksum;
      !(previousChecksum.Some? && currentChecksum == previousChecksum.value)
  }

  /** `createOrGetConfigCache`: the persisted entry, else a fresh one. */
  function CreateOrGetConfigCache(c: Cache, path: string): (r: Result<ConfigCache, Error>)
    ensures r.Failure? <==> !Exists(c)
    ensures Exists(c) && path in c.value.configs ==> r == Success(c.value.configs[path])
    ensures Exists(c) && path !in c.value.configs ==> r == Success(FreshConfig)
  {
    if !Exists(c) then Failure(NoSuchElement)
    else if path in c.value.configs then Success(c.value.configs[path])
    else Success(FreshConfig)
  }

  /** `getConfigTables`: the tables recorded for a config file. */
  function GetConfigTables(c: Cache, path: string): (r: Result<set<string>, Error>)
    ensures r.Success? <==> Exists(c) && path in c.value.configs
    ensures r.Success? ==> r.value == c.value.configs[path].tables
  {
    if Exists(c) && path in c.value.configs then Success(c.value.configs[path].tables)
    else Failure(NoSuchElement)
  }

  /** `isConfigPresent`. */
  function IsConfigPresent(c: Cache, path: string): (r: Result<bool, Error>)
    ensures r.Failure? <==> !Exists(c)
    ensures r.Success? ==> (r.value <==> path in c.value.configs)
  {
    if Exists(c) then Success(path in c.value.configs) else Failure(NoSuchElement)
  }

  /** `haveLastUsedConfigPathsChanged`, with Java's test: either set null,
      the sizes differ, or the new set lacks an old path. */
  function HaveLastUsedConfigPathsChanged(c: Cache, newPaths: Option<set<string>>): (changed: bool)
    ensures !Exists(c) || newPaths.None? || c.value.lastUsedConfigPaths.None? ==> changed
    ensures Exists(c) && newPaths.Some? && c.value.lastUsedConfigPaths.Some? ==>
      (changed <==> newPaths.value != c.value.lastUsedConfigPaths.value)
  {
    if !Exists(c) then true
    else
      var oldPaths := c.value.lastUsedConfigPaths;
      if newPaths.Some? && oldPaths.Some? && |newPaths.value| == |oldPaths.value| && oldPaths.value <= newPaths.value then
        SubsetSameSize(oldPaths.value, newPaths.value);
        false
      else
        || newPaths.None?
        || oldPaths.None?
        || |newPaths.value| != |oldPaths.value|
        || !(oldPaths.value <= newPaths.value)
  }

  /** The size-and-containment test is set equality: with a cache and both
      sets present, the paths changed exactly when the sets differ. */
  lemma PathsChangedIff(c: Cache, newPaths: Option<set<string>>)
    ensures !Exists(c) ==> HaveLastUsedConfigPathsChanged(c, newPaths)
    ensures Exists(c) && (newPaths.None? || c.value.lastUsedConfigPaths.None?) ==>
      HaveLastUsedConfigPathsChanged(c, newPaths)
    ensures Exists(c) && newPaths.Some? && c.value.lastUsedConfigPaths.Some? ==>
      (HaveLastUsedConfigPathsChanged(c, newPaths) <==> newPaths.value != c.value.lastUsedConfigPaths.value)
  {
    if Exists(c) && newPaths.Some? && c.value.lastUsedConfigPaths.Some? {
      var a := newPaths.value;
      var b := c.value.lastUsedConfigPaths.value;
      if |a| == |b| && b <= a {
        SubsetSameSize(b, a);
      }
    }
  }

  /** A subset as large as its superset is the whole set. */
  lemma SubsetSameSize<T>(b: set<T>, a: set<T>)
    requires b <= a && |b| == |a|
    ensures b == a
  {
    assert a == b + (a - b);
    assert |a| == |b| + |a - b|;
  }

  /** `setLastUsedConfigPaths`. */
  function SetLastUsedConfigPaths(c: Cache, paths: Option<set<string>>): (r: Result<Cache, Error>)
    ensures r.Failure? <==> !Exists(c)
    ensures r.Success? ==>
      && Exists(r.value)
      && r.value.value.lastUsedConfigPaths == paths
      && r.value.value.configs == c.value.configs
  {
    if Exists(c) then Success(Some(c.value.(lastUsedConfigPaths := paths))) else Failure(NoSuchElement)
  }

  /** `persist`: the snapshot handed to the writer thread, or nothing
      without a cache. */
  function Persist(c: Cache): (snapshot: Option<PersistentCache>)
    ensures snapshot.Some? <==> Exists(c)
    ensures snapshot.Some? ==> Some(snapshot.value) == c
  {
    c
  }

  /** What `persist` hands to the writer is what the next `load` reads
      back: the same cache, with no warning. */
  lemma PersistThenLoad(c: Cache)
    requires Exists(c)
    ensures Persist(c).Some?
    ensures Load(Read(Persist(c).value)) == (c, [])
  {
  }

  /** A removal survives a restart: the persisted snapshot loads back as the
      cache without the entry, and the config then counts as changed. */
  lemma RemovalSurvivesReload(c: Cache, path: string, checksum: string)
    requires Exists(c)
    ensures var removed := RemoveConfig(c, path);
      && removed.Success? && removed.value.1.Some?
      && var reloaded := Load(Read(removed.value.1.value)).0;
      && reloaded == removed.value.0
      && CompareConfigFileChecksums(reloaded, path, checksum)
  {
  }

  /** `removeConfig`: the entry goes, everything else stays, and the
      updated cache is persisted. */
  function RemoveConfig(c: Cache, path: string): (r: Result<(Cache, Option<PersistentCache>), Error>)
    ensures r.Failure? <==> !Exists(c)
    ensures r.Success? ==>
      var after := r.value.0;
      && Exists(after)
      && path !in after.value.configs
      && (forall p :: p in c.value.configs && p != path ==>
            p in after.value.configs && after.value.configs[p] == c.value.configs[p])
      && after.value.configs.Keys <= c.value.configs.Keys
      && after.value.lastUsedConfigPaths == c.value.lastUsedConfigPaths
      && r.value.1 == Some(after.value)
  {
    if !Exists(c) then Failure(NoSuchElement)
    else
      var after := Some(c.value.(configs := c.value.configs - {path}));
      Success((after, Persist(after)))
  }

  /** Once a config's entry is removed, its checksum never matches again:
      the next start treats the file as changed. */
  lemma RemovedConfigIsChanged(c: Cache, path: string, checksum: string)
    requires Exists(c)
    ensures RemoveConfig(c, path).Success?
    ensures CompareConfigFileChecksums(RemoveConfig(c, path).value.0, path, checksum)
    ensures CreateOrGetConfigCache(RemoveConfig(c, path).value.0, path) == Success(FreshConfig)
  {
  }

  /** Removing is idempotent on the cache. */
  lemma RemoveConfigIdempotent(c: Cache, path: string)
    requires Exists(c)
    ensures var once := RemoveConfig(c, path).value.0;
      RemoveConfig(once, path).value.0 == once
  {
    var once := RemoveConfig(c, path).value.0;
    assert once.value.configs - {path} == once.value.configs;
  }

  /** After a load the checksum test can be answered, and an unreadable or
      missing file makes every config count as changed. */
  lemma LoadThenCompare(outcome: LoadOutcome, path: string, checksum: string)
    requires !outcome.Read?
    ensures CompareConfigFileChecksums(Load(outcome).0, path, checksum)
    ensures CreateOrGetConfigCache(Load(outcome).0, path) == Success(FreshConfig)
  {
  }
}
