/**
 * The storage manager: the configured storage type picks a backend, the
 * module keeps one memoised backend instance, and `DbManager` resolves its
 * backend on first use and forwards every call to it, probing optional
 * methods before calling them.
 */
module Db {
  import opened Wrappers
  import opened Strings
  import Crypto
  import Kv = CloudflareKv
  import Noop = NoopStorage

  /** `NEXT_PUBLIC_STORAGE_TYPE || 'localstorage'`: unset or empty falls back. */
  function EffectiveStorageType(env: Option<string>): (t: string)
    ensures t != ""
  {
    if env.Some? && env.value != "" then env.value else "localstorage"
  }

  /** `${source}+${id}`. */
  function GenerateStorageKey(source: string, id: string): string {
    source + "+" + id
  }

  /** The position of the first `c` in `s`. */
  function IndexOf(s: string, c: char): (r: Option<nat>)
    ensures r.None? <==> c !in s
    ensures r.Some? ==> r.value < |s| && s[r.value] == c && c !in s[..r.value]
  {
    if s == [] then None
    else if s[0] == c then Some(0)
    else
      var r := IndexOf(s[1..], c);
      if r.None? then None
      else
        assert s[..r.value + 1] == [s[0]] + s[1..][..r.value];
        Some(r.value + 1)
  }

  /** Read a storage key back as (source, id), splitting at the first `+`. */
  function SplitStorageKey(key: string): (r: Option<(string, string)>)
    ensures r.None? <==> '+' !in key
    ensures r.Some? ==> '+' !in r.value.0 && key == r.value.0 + "+" + r.value.1
  {
    match IndexOf(key, '+')
    case None => None
    case Some(i) =>
      assert key == key[..i] + "+" + key[i + 1..];
      Some((key[..i], key[i + 1..]))
  }

  /** A source name without `+` can be read back together with the id. */
  lemma StorageKeyRoundTrip(source: string, id: string)
    requires '+' !in source
    ensures SplitStorageKey(GenerateStorageKey(source, id)) == Some((source, id))
  {
    var key := GenerateStorageKey(source, id);
    var i := IndexOf(key, '+').value;
    assert key[|source|] == '+';
    assert key[..i] == source;
    assert key[i + 1..] == id;
  }

  /** Hence distinct (source, id) pairs give distinct keys when sources have no `+`. */
  lemma StorageKeyInjective(s1: string, i1: string, s2: string, i2: string)
    requires '+' !in s1 && '+' !in s2
    requires GenerateStorageKey(s1, i1) == GenerateStorageKey(s2, i2)
    ensures s1 == s2 && i1 == i2
  {
    StorageKeyRoundTrip(s1, i1);
    StorageKeyRoundTrip(s2, i2);
  }

  /** Without that condition two pairs can collide. */
  lemma StorageKeyCollision()
    ensures GenerateStorageKey("a+b", "c") == GenerateStorageKey("a", "b+c")
  {
    assert "a+b" + "+" + "c" == "a" + "+" + "b+c";
  }

  /** Which optional methods an Upstash backend provides (its source is not part of this model). */
  datatype Capabilities = Capabilities(
    getAllUsers: bool, getAdminConfig: bool, setAdminConfig: bool,
    getSkipConfig: bool, setSkipConfig: bool, deleteSkipConfig: bool,
    getAllSkipConfigs: bool, clearAllData: bool)

  const AllCapabilities := Capabilities(true, true, true, true, true, true, true, true)

  /**
   * A resolved backend.  `Null` is the `null` that `localstorage` and
   * unknown storage types resolve to: every call on it throws.
   */
  datatype Backend = Noop | CfKv(store: Kv.CloudflareKVStorage) | Upstash(caps: Capabilities) | Null

  datatype Kind = NoopKind | CfKvKind | UpstashKind | NullKind

  function KindOf(b: Backend): Kind {
    match b
    case Noop => NoopKind
    case CfKv(_) => CfKvKind
    case Upstash(_) => UpstashKind
    case Null => NullKind
  }

  /** Noop and Cloudflare KV implement every optional method. */
  function Caps(b: Backend): Capabilities {
    if b.Upstash? then b.caps else AllCapabilities
  }

  /** The `createStorageAsync` switch, given whether a KV namespace is bound. */
  function Select(storageType: string, bound: bool): (k: Kind)
    ensures k == UpstashKind <==> storageType == "upstash"
    ensures k == CfKvKind <==> storageType == "cf-kv" && bound
    ensures k == NoopKind <==> storageType == "redis" || storageType == "kvrocks" || (storageType == "cf-kv" && !bound)
    ensures k == NullKind <==> storageType !in {"redis", "upstash", "kvrocks", "cf-kv"}
  {
    match storageType
    case "redis" => NoopKind
    case "upstash" => UpstashKind
    case "kvrocks" => NoopKind
    case "cf-kv" => if bound then CfKvKind else NoopKind
    case _ => NullKind
  }

  /** Only Cloudflare KV selections depend on the binding. */
  lemma SelectIgnoresBinding(storageType: string, b1: bool, b2: bool)
    requires storageType != "cf-kv"
    ensures Select(storageType, b1) == Select(storageType, b2)
  {
  }

  /**
   * An unset or empty storage type resolves to the null backend, and any
   * setting that selects a real backend is the configured value itself.
   */
  lemma UnsetStorageTypeIsNull(env: Option<string>, bound: bool)
    ensures (env.None? || env.value == "") ==> Select(EffectiveStorageType(env), bound) == NullKind
    ensures Select(EffectiveStorageType(env), bound) != NullKind ==> env == Some(EffectiveStorageType(env))
  {
  }

  function BackendNamespaces(b: Option<Backend>): set<object> {
    if b.Some? && b.value.CfKv? then {b.value.store.kv} else {}
  }

  /**
   * The module-level state of the storage manager: the configured type,
   * whether this is the build phase (`npm_lifecycle_event === 'build'`),
   * the bound KV namespace and the memoised instance.
   */
  class StorageRuntime {
    const storageType: string
    const buildPhase: bool
    const upstashCaps: Capabilities
    var kvNamespace: Kv.KvNamespace?
    var instance: Option<Backend>

    constructor (env: Option<string>, buildPhase: bool, upstashCaps: Capabilities)
      ensures storageType == EffectiveStorageType(env)
      ensures this.buildPhase == buildPhase && this.upstashCaps == upstashCaps
      ensures kvNamespace == null && instance == None
    {
      storageType := EffectiveStorageType(env);
      this.buildPhase := buildPhase;
      this.upstashCaps := upstashCaps;
      kvNamespace := null;
      instance := None;
    }

    /** `setKVNamespace`: rebinding never touches an instance already made. */
    method SetKVNamespace(kv: Kv.KvNamespace)
      modifies this
      ensures kvNamespace == kv && instance == old(instance)
    {
      kvNamespace := kv;
    }

    /** `createStorageAsync`. */
    method CreateStorage() returns (b: Backend)
      ensures KindOf(b) == Select(storageType, kvNamespace != null)
      ensures b.CfKv? ==> b.store.kv == kvNamespace && fresh(b.store)
      ensures b.Upstash? ==> b.caps == upstashCaps
    {
      match storageType
      case "redis" => b := Noop;
      case "upstash" => b := Upstash(upstashCaps);
      case "kvrocks" => b := Noop;
      case "cf-kv" =>
        if kvNamespace == null {
          b := Noop;
        } else {
          var store := new Kv.CloudflareKVStorage(kvNamespace);
          b := CfKv(store);
        }
      case _ => b := Null;
    }

    /**
     * `getStorageAsync`: the memoised instance if there is one; in the build
     * phase with `cf-kv`, a Noop that is not memoised; otherwise a new
     * instance, which is memoised.
     */
    method GetStorageAsync() returns (b: Backend)
      modifies this
      ensures kvNamespace == old(kvNamespace)
      ensures old(instance).Some? ==> b == old(instance).value && instance == old(instance)
      ensures old(instance).None? && buildPhase && storageType == "cf-kv" ==> b == Noop && instance == None
      ensures old(instance).None? && !(buildPhase && storageType == "cf-kv") ==>
        && instance == Some(b)
        && KindOf(b) == Select(storageType, kvNamespace != null)
        && (b.CfKv? ==> b.store.kv == kvNamespace)
        && (b.Upstash? ==> b.caps == upstashCaps)
    {
      if instance.Some? {
        return instance.value;
      }
      if buildPhase && storageType == "cf-kv" {
        return Noop;
      }
      b := CreateStorage();
      instance := Some(b);
    }
  }

  datatype DbError =
    | NullStorage        // a call on the `null` backend throws a TypeError
    | ClearNotSupported  // `clearAllData` on a backend without it
    | BackendFailed      // an Upstash call rejected

  /** An answer of the opaque Upstash backend: any value, or a rejection. */
  method UpstashReply<T(0)>() returns (r: Result<T, DbError>)
    ensures r.Success? || r == Failure(BackendFailed)
  {
    var fails: bool := *;
    if fails {
      r := Failure(BackendFailed);
    } else {
      var v: T := *;
      r := Success(v);
    }
  }

  class DbManager {
    const runtime: StorageRuntime
    var storage: Option<Backend>

    constructor (runtime: StorageRuntime)
      ensures this.runtime == runtime && storage == None
    {
      this.runtime := runtime;
      storage := None;
    }

    /** Every KV namespace a call may write to: the bound one and those of the resolved backends. */
    function Namespaces(): set<object>
      reads this, runtime
    {
      (if runtime.kvNamespace != null then {runtime.kvNamespace} else {})
        + BackendNamespaces(storage) + BackendNamespaces(runtime.instance)
    }

    /**
     * `getStorage`: resolve once through `getStorageAsync` and keep the
     * answer for good, even the build-phase Noop that the module does not
     * memoise.
     */
    method GetStorage() returns (b: Backend)
      modifies this, runtime
      ensures storage == Some(b)
      ensures runtime.kvNamespace == old(runtime.kvNamespace)
      ensures b.CfKv? ==> b.store.kv in old(Namespaces())
      ensures old(storage).Some? ==> b == old(storage).value && unchanged(runtime)
      ensures old(storage).None? && old(runtime.instance).Some? ==> b == old(runtime.instance).value
      ensures old(storage).None? && old(runtime.instance).None? && runtime.buildPhase && runtime.storageType == "cf-kv" ==>
        b == Noop && runtime.instance == None
      ensures old(storage).None? && old(runtime.instance).None? && !(runtime.buildPhase && runtime.storageType == "cf-kv") ==>
        && runtime.instance == Some(b)
        && KindOf(b) == Select(runtime.storageType, runtime.kvNamespace != null)
        && (b.CfKv? ==> b.store.kv == runtime.kvNamespace)
        && (b.Upstash? ==> b.caps == runtime.upstashCaps)
    {
      if storage.Some? {
        return storage.value;
      }
      b := runtime.GetStorageAsync();
      storage := Some(b);
    }

    method GetPlayRecord(user: string, source: string, id: string) returns (r: Result<Option<Kv.Value>, DbError>)
      modifies this, runtime
      ensures storage.Some? && (old(storage).Some? ==> storage == old(storage))
      ensures runtime.kvNamespace == old(runtime.kvNamespace) && (old(storage).Some? ==> unchanged(runtime))
      ensures storage.value.Null? ==> r == Failure(NullStorage)
      ensures storage.value.Noop? ==> r == Success(Noop.GetPlayRecord(user, GenerateStorageKey(source, id)))
      ensures storage.value.CfKv? ==> r == Success(Kv.Lookup(storage.value.store.kv.entries, Kv.PlayRecordKey(user, GenerateStorageKey(source, id))))
      ensures storage.value.Upstash? ==> r.Success? || r == Failure(BackendFailed)
    {
      var b := GetStorage();
      var key := GenerateStorageKey(source, id);
      match b
      case Null => r := Failure(NullStorage);
      case Noop => r := Success(Noop.GetPlayRecord(user, key));
      case CfKv(store) =>
        var v := store.GetPlayRecord(user, key);
        r := Success(v);
      case Upstash(_) => r := UpstashReply();
    }

    method SavePlayRecord(user: string, source: string, id: string, record: Kv.Value) returns (r: Result<(), DbError>)
      modifies this, runtime, Namespaces()
      ensures storage.Some? && (old(storage).Some? ==> storage == old(storage))
      ensures runtime.kvNamespace == old(runtime.kvNamespace) && (old(storage).Some? ==> unchanged(runtime))
      ensures storage.value.Null? ==> r == Failure(NullStorage) && unchanged(old(Namespaces()))
      ensures storage.value.Noop? ==> r == Success(()) && unchanged(old(Namespaces()))
      ensures storage.value.CfKv? ==>
        var kv := storage.value.store.kv;
        && old(allocated(kv))
        && unchanged(old(Namespaces()) - {kv})
        && r == Success(())
        && kv.entries == old(kv.entries)[Kv.PlayRecordKey(user, GenerateStorageKey(source, id)) := record]
      ensures storage.value.Upstash? ==> unchanged(old(Namespaces()))
    {
      var b := GetStorage();
      var key := GenerateStorageKey(source, id);
      match b
      case Null => r := Failure(NullStorage);
      case Noop => r := Success(());
      case CfKv(store) =>
        store.SetPlayRecord(user, key, record);
        r := Success(());
      case Upstash(_) => r := UpstashReply();
    }

    method GetAllPlayRecords(user: string) returns (r: Result<map<string, Kv.Value>, DbError>)
      modifies this, runtime
      ensures storage.Some? && (old(storage).Some? ==> storage == old(storage))
      ensures runtime.kvNamespace == old(runtime.kvNamespace) && (old(storage).Some? ==> unchanged(runtime))
      ensures storage.value.Null? ==> r == Failure(NullStorage)
      ensures storage.value.Noop? ==> r == Success(Noop.GetAllPlayRecords(user))
      ensures storage.value.CfKv? ==> r.Success? && Kv.IsScan(r.value, storage.value.store.kv.entries, Kv.PlayRecordPrefix(user))
      ensures storage.value.Upstash? ==> r.Success? || r == Failure(BackendFailed)
    {
      var b := GetStorage();
      match b
      case Null => r := Failure(NullStorage);
      case Noop => r := Success(Noop.GetAllPlayRecords(user));
      case CfKv(store) =>
        var records := store.GetAllPlayRecords(user);
        r := Success(records);
      case Upstash(_) => r := UpstashReply();
    }

    method DeletePlayRecord(user: string, source: string, id: string) returns (r: Result<(), DbError>)
      modifies this, runtime, Namespaces()
      ensures storage.Some? && (old(storage).Some? ==> storage == old(storage))
      ensures runtime.kvNamespace == old(runtime.kvNamespace) && (old(storage).Some? ==> unchanged(runtime))
      ensures storage.value.Null? ==> r == Failure(NullStorage) && unchanged(old(Namespaces()))
      ensures storage.value.Noop? ==> r == Success(()) && unchanged(old(Namespaces()))
      ensures storage.value.CfKv? ==>
        var kv := storage.value.store.kv;
        && old(allocated(kv))
        && unchanged(old(Namespaces()) - {kv})
        && r == Success(())
        && kv.entries == old(kv.entries) - {Kv.PlayRecordKey(user, GenerateStorageKey(source, id))}
      ensures storage.value.Upstash? ==> unchanged(old(Namespaces()))
    {
      var b := GetStorage();
      var key := GenerateStorageKey(source, id);
      match b
      case Null => r := Failure(NullStorage);
      case Noop => r := Success(());
      case CfKv(store) =>
        store.DeletePlayRecord(user, key);
        r := Success(());
      case Upstash(_) => r := UpstashReply();
    }

    method GetFavorite(user: string, source: string, id: string) returns (r: Result<Option<Kv.Value>, DbError>)
      modifies this, runtime
      ensures storage.Some? && (old(storage).Some? ==> storage == old(storage))
      ensures runtime.kvNamespace == old(runtime.kvNamespace) && (old(storage).Some? ==> unchanged(runtime))
      ensures storage.value.Null? ==> r == Failure(NullStorage)
      ensures storage.value.Noop? ==> r == Success(Noop.GetFavorite(user, GenerateStorageKey(source, id)))
      ensures storage.value.CfKv? ==> r == Success(Kv.Lookup(storage.value.store.kv.entries, Kv.FavoriteKey(user, GenerateStorageKey(source, id))))
      ensures storage.value.Upstash? ==> r.Success? || r == Failure(BackendFailed)
    {
      var b := GetStorage();
      var key := GenerateStorageKey(source, id);
      match b
      case Null => r := Failure(NullStorage);
      case Noop => r := Success(Noop.GetFavorite(user, key));
      case CfKv(store) =>
        var v := store.GetFavorite(user, key);
        r := Success(v);
      case Upstash(_) => r := UpstashReply();
    }

    method SaveFavorite(user: string, source: string, id: string, favorite: Kv.Value) returns (r: Result<(), DbError>)
      modifies this, runtime, Namespaces()
      ensures storage.Some? && (old(storage).Some? ==> storage == old(storage))
      ensures runtime.kvNamespace == old(runtime.kvNamespace) && (old(storage).Some? ==> unchanged(runtime))
      ensures storage.value.Null? ==> r == Failure(NullStorage) && unchanged(old(Namespaces()))
      ensures storage.value.Noop? ==> r == Success(()) && unchanged(old(Namespaces()))
      ensures storage.value.CfKv? ==>
        var kv := storage.value.store.kv;
        && old(allocated(kv))
        && unchanged(old(Namespaces()) - {kv})
        && r == Success(())
        && kv.entries == old(kv.entries)[Kv.FavoriteKey(user, GenerateStorageKey(source, id)) := favorite]
      ensures storage.value.Upstash? ==> unchanged(old(Namespaces()))
    {
      var b := GetStorage();
      var key := GenerateStorageKey(source, id);
      match b
      case Null => r := Failure(NullStorage);
      case Noop => r := Success(());
      case CfKv(store) =>
        store.SetFavorite(user, key, favorite);
        r := Success(());
      case Upstash(_) => r := UpstashReply();
    }

    method GetAllFavorites(user: string) returns (r: Result<map<string, Kv.Value>, DbError>)
      modifies this, runtime
      ensures storage.Some? && (old(storage).Some? ==> storage == old(storage))
      ensures runtime.kvNamespace == old(runtime.kvNamespace) && (old(storage).Some? ==> unchanged(runtime))
      ensures storage.value.Null? ==> r == Failure(NullStorage)
      ensures storage.value.Noop? ==> r == Success(Noop.GetAllFavorites(user))
      ensures storage.value.CfKv? ==> r.Success? && Kv.IsScan(r.value, storage.value.store.kv.entries, Kv.FavoritePrefix(user))
      ensures storage.value.Upstash? ==> r.Success? || r == Failure(BackendFailed)
    {
      var b := GetStorage();
      match b
      case Null => r := Failure(NullStorage);
      case Noop => r := Success(Noop.GetAllFavorites(user));
      case CfKv(store) =>
        var favorites := store.GetAllFavorites(user);
        r := Success(favorites);
      case Upstash(_) => r := UpstashReply();
    }

    method DeleteFavorite(user: string, source: string, id: string) returns (r: Result<(), DbError>)
      modifies this, runtime, Namespaces()
      ensures storage.Some? && (old(storage).Some? ==> storage == old(storage))
      ensures runtime.kvNamespace == old(runtime.kvNamespace) && (old(storage).Some? ==> unchanged(runtime))
      ensures storage.value.Null? ==> r == Failure(NullStorage) && unchanged(old(Namespaces()))
      ensures storage.value.Noop? ==> r == Success(()) && unchanged(old(Namespaces()))
      ensures storage.value.CfKv? ==>
        var kv := storage.value.store.kv;
        && old(allocated(kv))
        && unchanged(old(Namespaces()) - {kv})
        && r == Success(())
        && kv.entries == old(kv.entries) - {Kv.FavoriteKey(user, GenerateStorageKey(source, id))}
      ensures storage.value.Upstash? ==> unchanged(old(Namespaces()))
    {
      var b := GetStorage();
      var key := GenerateStorageKey(source, id);
      match b
      case Null => r := Failure(NullStorage);
      case Noop => r := Success(());
      case CfKv(store) =>
        store.DeleteFavorite(user, key);
        r := Success(());
      case Upstash(_) => r := UpstashReply();
    }

    /** `isFavorited`: fails exactly when `getFavorite` does, and is true iff it found something. */
    method IsFavorited(user: string, source: string, id: string) returns (r: Result<bool, DbError>)
      modifies this, runtime
      ensures storage.Some? && (old(storage).Some? ==> storage == old(storage))
      ensures runtime.kvNamespace == old(runtime.kvNamespace) && (old(storage).Some? ==> unchanged(runtime))
      ensures storage.value.Null? ==> r == Failure(NullStorage)
      ensures storage.value.Noop? ==> r == Success(false)
      ensures storage.value.CfKv? ==> r == Success(Kv.FavoriteKey(user, GenerateStorageKey(source, id)) in storage.value.store.kv.entries)
      ensures storage.value.Upstash? ==> r.Success? || r == Failure(BackendFailed)
    {
      var favorite := GetFavorite(user, source, id);
      match favorite
      case Failure(e) => r := Failure(e);
      case Success(f) => r := Success(f.Some?);
    }

    method RegisterUser(user: string, password: string, salt: Crypto.Salt, kdf: Crypto.Kdf) returns (r: Result<(), DbError>)
      modifies this, runtime, Namespaces()
      ensures storage.Some? && (old(storage).Some? ==> storage == old(storage))
      ensures runtime.kvNamespace == old(runtime.kvNamespace) && (old(storage).Some? ==> unchanged(runtime))
      ensures storage.value.Null? ==> r == Failure(NullStorage) && unchanged(old(Namespaces()))
      ensures storage.value.Noop? ==> r == Success(()) && unchanged(old(Namespaces()))
      ensures storage.value.CfKv? ==>
        var kv := storage.value.store.kv;
        && old(allocated(kv))
        && unchanged(old(Namespaces()) - {kv})
        && r == Success(())
        && kv.entries == old(kv.entries)[Kv.UserKey(user) := Kv.Hash(Crypto.HashPassword(password, salt, kdf))]
      ensures storage.value.Upstash? ==> unchanged(old(Namespaces()))
    {
      var b := GetStorage();
      match b
      case Null => r := Failure(NullStorage);
      case Noop => r := Success(());
      case CfKv(store) =>
        store.RegisterUser(user, password, salt, kdf);
        r := Success(());
      case Upstash(_) => r := UpstashReply();
    }

    method VerifyUser(user: string, password: string, kdf: Crypto.Kdf) returns (r: Result<bool, DbError>)
      modifies this, runtime
      ensures storage.Some? && (old(storage).Some? ==> storage == old(storage))
      ensures runtime.kvNamespace == old(runtime.kvNamespace) && (old(storage).Some? ==> unchanged(runtime))
      ensures storage.value.Null? ==> r == Failure(NullStorage)
      ensures storage.value.Noop? ==> r == Success(Noop.VerifyUser(user, password, kdf))
      ensures storage.value.CfKv? ==> r == Success(Kv.Verifies(storage.value.store.kv.entries, user, password, kdf))
      ensures storage.value.Upstash? ==> r.Success? || r == Failure(BackendFailed)
    {
      var b := GetStorage();
      match b
      case Null => r := Failure(NullStorage);
      case Noop => r := Success(Noop.VerifyUser(user, password, kdf));
      case CfKv(store) =>
        var ok := store.VerifyUser(user, password, kdf);
        r := Success(ok);
      case Upstash(_) => r := UpstashReply();
    }

    method CheckUserExist(user: string) returns (r: Result<bool, DbError>)
      modifies this, runtime
      ensures storage.Some? && (old(storage).Some? ==> storage == old(storage))
      ensures runtime.kvNamespace == old(runtime.kvNamespace) && (old(storage).Some? ==> unchanged(runtime))
      ensures storage.value.Null? ==> r == Failure(NullStorage)
      ensures storage.value.Noop? ==> r == Success(Noop.CheckUserExist(user))
      ensures storage.value.CfKv? ==> r == Success(Kv.UserKey(user) in storage.value.store.kv.entries)
      ensures storage.value.Upstash? ==> r.Success? || r == Failure(BackendFailed)
    {
      var b := GetStorage();
      match b
      case Null => r := Failure(NullStorage);
      case Noop => r := Success(Noop.CheckUserExist(user));
      case CfKv(store) =>
        var exists_ := store.CheckUserExist(user);
        r := Success(exists_);
      case Upstash(_) => r := UpstashReply();
    }

    method ChangePassword(user: string, newPassword: string, salt: Crypto.Salt, kdf: Crypto.Kdf) returns (r: Result<(), DbError>)
      modifies this, runtime, Namespaces()
      ensures storage.Some? && (old(storage).Some? ==> storage == old(storage))
      ensures runtime.kvNamespace == old(runtime.kvNamespace) && (old(storage).Some? ==> unchanged(runtime))
      ensures storage.value.Null? ==> r == Failure(NullStorage) && unchanged(old(Namespaces()))
      ensures storage.value.Noop? ==> r == Success(()) && unchanged(old(Namespaces()))
      ensures storage.value.CfKv? ==>
        var kv := storage.value.store.kv;
        && old(allocated(kv))
        && unchanged(old(Namespaces()) - {kv})
        && r == Success(())
        && kv.entries == old(kv.entries)[Kv.UserKey(user) := Kv.Hash(Crypto.HashPassword(newPassword, salt, kdf))]
      ensures storage.value.Upstash? ==> unchanged(old(Namespaces()))
    {
      var b := GetStorage();
      match b
      case Null => r := Failure(NullStorage);
      case Noop => r := Success(());
      case CfKv(store) =>
        store.ChangePassword(user, newPassword, salt, kdf);
        r := Success(());
      case Upstash(_) => r := UpstashReply();
    }

    method DeleteUser(user: string) returns (r: Result<(), DbError>)
      modifies this, runtime, Namespaces()
      ensures storage.Some? && (old(storage).Some? ==> storage == old(storage))
      ensures runtime.kvNamespace == old(runtime.kvNamespace) && (old(storage).Some? ==> unchanged(runtime))
      ensures storage.value.Null? ==> r == Failure(NullStorage) && unchanged(old(Namespaces()))
      ensures storage.value.Noop? ==> r == Success(()) && unchanged(old(Namespaces()))
      ensures storage.value.CfKv? ==>
        var kv := storage.value.store.kv;
        && old(allocated(kv))
        && unchanged(old(Namespaces()) - {kv})
        && r == Success(())
        && kv.entries == old(kv.entries) - Kv.UserFootprint(user, old(kv.entries).Keys)
      ensures storage.value.Upstash? ==> unchanged(old(Namespaces()))
    {
      var b := GetStorage();
      match b
      case Null => r := Failure(NullStorage);
      case Noop => r := Success(());
      case CfKv(store) =>
        store.DeleteUser(user);
        r := Success(());
      case Upstash(_) => r := UpstashReply();
    }

    method GetSearchHistory(user: string) returns (r: Result<seq<string>, DbError>)
      modifies this, runtime
      ensures storage.Some? && (old(storage).Some? ==> storage == old(storage))
      ensures runtime.kvNamespace == old(runtime.kvNamespace) && (old(storage).Some? ==> unchanged(runtime))
      ensures storage.value.Null? ==> r == Failure(NullStorage)
      ensures storage.value.Noop? ==> r == Success(Noop.GetSearchHistory(user))
      ensures storage.value.CfKv? ==> r == Success(Kv.History(storage.value.store.kv.entries, user))
      ensures storage.value.Upstash? ==> r.Success? || r == Failure(BackendFailed)
    {
      var b := GetStorage();
      match b
      case Null => r := Failure(NullStorage);
      case Noop => r := Success(Noop.GetSearchHistory(user));
      case CfKv(store) =>
        var history := store.GetSearchHistory(user);
        r := Success(history);
      case Upstash(_) => r := UpstashReply();
    }

    method AddSearchHistory(user: string, keyword: string) returns (r: Result<(), DbError>)
      modifies this, runtime, Namespaces()
      ensures storage.Some? && (old(storage).Some? ==> storage == old(storage))
      ensures runtime.kvNamespace == old(runtime.kvNamespace) && (old(storage).Some? ==> unchanged(runtime))
      ensures storage.value.Null? ==> r == Failure(NullStorage) && unchanged(old(Namespaces()))
      ensures storage.value.Noop? ==> r == Success(()) && unchanged(old(Namespaces()))
      ensures storage.value.CfKv? ==>
        var kv := storage.value.store.kv;
        && old(allocated(kv))
        && unchanged(old(Namespaces()) - {kv})
        && r == Success(())
        && kv.entries == old(kv.entries)[Kv.HistoryKey(user) := Kv.Terms(Kv.AddToHistory(Kv.History(old(kv.entries), user), keyword))]
      ensures storage.value.Upstash? ==> unchanged(old(Namespaces()))
    {
      var b := GetStorage();
      match b
      case Null => r := Failure(NullStorage);
      case Noop => r := Success(());
      case CfKv(store) =>
        store.AddSearchHistory(user, keyword);
        r := Success(());
      case Upstash(_) => r := UpstashReply();
    }

    method DeleteSearchHistory(user: string, keyword: Option<string>) returns (r: Result<(), DbError>)
      modifies this, runtime, Namespaces()
      ensures storage.Some? && (old(storage).Some? ==> storage == old(storage))
      ensures runtime.kvNamespace == old(runtime.kvNamespace) && (old(storage).Some? ==> unchanged(runtime))
      ensures storage.value.Null? ==> r == Failure(NullStorage) && unchanged(old(Namespaces()))
      ensures storage.value.Noop? ==> r == Success(()) && unchanged(old(Namespaces()))
      ensures storage.value.CfKv? && keyword.Some? && keyword.value != "" ==>
        var kv := storage.value.store.kv;
        && old(allocated(kv))
        && unchanged(old(Namespaces()) - {kv})
        && r == Success(())
        && kv.entries == old(kv.entries)[Kv.HistoryKey(user) := Kv.Terms(Kv.RemoveTerm(Kv.History(old(kv.entries), user), keyword.value))]
      ensures storage.value.CfKv? && !(keyword.Some? && keyword.value != "") ==>
        var kv := storage.value.store.kv;
        && old(allocated(kv))
        && unchanged(old(Namespaces()) - {kv})
        && r == Success(())
        && kv.entries == old(kv.entries) - {Kv.HistoryKey(user)}
      ensures storage.value.Upstash? ==> unchanged(old(Namespaces()))
    {
      var b := GetStorage();
      match b
      case Null => r := Failure(NullStorage);
      case Noop => r := Success(());
      case CfKv(store) =>
        store.DeleteSearchHistory(user, keyword);
        r := Success(());
      case Upstash(_) => r := UpstashReply();
    }

    /** `getAllUsers`: `[]` when the backend has no such method. */
    method GetAllUsers() returns (r: Result<seq<string>, DbError>)
      modifies this, runtime
      ensures storage.Some? && (old(storage).Some? ==> storage == old(storage))
      ensures runtime.kvNamespace == old(runtime.kvNamespace) && (old(storage).Some? ==> unchanged(runtime))
      ensures storage.value.Null? ==> r == Failure(NullStorage)
      ensures storage.value.Noop? ==> r == Success(Noop.GetAllUsers())
      ensures storage.value.CfKv? ==>
        && r.Success?
        && Distinct(r.value)
        && forall u :: u in r.value <==> Kv.UserKey(u) in storage.value.store.kv.entries
      ensures !storage.value.Null? && !Caps(storage.value).getAllUsers ==> r == Success([])
      ensures storage.value.Upstash? ==> r.Success? || r == Failure(BackendFailed)
    {
      var b := GetStorage();
      if b.Null? {
        return Failure(NullStorage);
      }
      if !Caps(b).getAllUsers {
        return Success([]);
      }
      match b
      case Noop => r := Success(Noop.GetAllUsers());
      case CfKv(store) =>
        var users := store.GetAllUsers();
        r := Success(users);
      case Upstash(_) => r := UpstashReply();
    }

    method GetAdminConfig() returns (r: Result<Option<Kv.Value>, DbError>)
      modifies this, runtime
      ensures storage.Some? && (old(storage).Some? ==> storage == old(storage))
      ensures runtime.kvNamespace == old(runtime.kvNamespace) && (old(storage).Some? ==> unchanged(runtime))
      ensures storage.value.Null? ==> r == Failure(NullStorage)
      ensures storage.value.Noop? ==> r == Success(Noop.GetAdminConfig())
      ensures storage.value.CfKv? ==> r == Success(Kv.Lookup(storage.value.store.kv.entries, Kv.AdminConfigKey))
      ensures !storage.value.Null? && !Caps(storage.value).getAdminConfig ==> r == Success(None)
      ensures storage.value.Upstash? ==> r.Success? || r == Failure(BackendFailed)
    {
      var b := GetStorage();
      if b.Null? {
        return Failure(NullStorage);
      }
      if !Caps(b).getAdminConfig {
        return Success(None);
      }
      match b
      case Noop => r := Success(Noop.GetAdminConfig());
      case CfKv(store) =>
        var config := store.GetAdminConfig();
        r := Success(config);
      case Upstash(_) => r := UpstashReply();
    }

    method SaveAdminConfig(config: Kv.Value) returns (r: Result<(), DbError>)
      modifies this, runtime, Namespaces()
      ensures storage.Some? && (old(storage).Some? ==> storage == old(storage))
      ensures runtime.kvNamespace == old(runtime.kvNamespace) && (old(storage).Some? ==> unchanged(runtime))
      ensures storage.value.Null? ==> r == Failure(NullStorage) && unchanged(old(Namespaces()))
      ensures storage.value.Noop? ==> r == Success(()) && unchanged(old(Namespaces()))
      ensures storage.value.CfKv? ==>
        var kv := storage.value.store.kv;
        && old(allocated(kv))
        && unchanged(old(Namespaces()) - {kv})
        && r == Success(())
        && kv.entries == old(kv.entries)[Kv.AdminConfigKey := config]
      ensures !storage.value.Null? && !Caps(storage.value).setAdminConfig ==> r == Success(())
      ensures storage.value.Upstash? ==> unchanged(old(Namespaces()))
    {
      var b := GetStorage();
      if b.Null? {
        return Failure(NullStorage);
      }
      if !Caps(b).setAdminConfig {
        return Success(());
      }
      match b
      case Noop => r := Success(());
      case CfKv(store) =>
        store.SetAdminConfig(config);
        r := Success(());
      case Upstash(_) => r := UpstashReply();
    }

    method GetSkipConfig(user: string, source: string, id: string) returns (r: Result<Option<Kv.Value>, DbError>)
      modifies this, runtime
      ensures storage.Some? && (old(storage).Some? ==> storage == old(storage))
      ensures runtime.kvNamespace == old(runtime.kvNamespace) && (old(storage).Some? ==> unchanged(runtime))
      ensures storage.value.Null? ==> r == Failure(NullStorage)
      ensures storage.value.Noop? ==> r == Success(Noop.GetSkipConfig(user, source, id))
      ensures storage.value.CfKv? ==> r == Success(Kv.Lookup(storage.value.store.kv.entries, Kv.SkipConfigKey(user, source, id)))
      ensures !storage.value.Null? && !Caps(storage.value).getSkipConfig ==> r == Success(None)
      ensures storage.value.Upstash? ==> r.Success? || r == Failure(BackendFailed)
    {
      var b := GetStorage();
      if b.Null? {
        return Failure(NullStorage);
      }
      if !Caps(b).getSkipConfig {
        return Success(None);
      }
      match b
      case Noop => r := Success(Noop.GetSkipConfig(user, source, id));
      case CfKv(store) =>
        var config := store.GetSkipConfig(user, source, id);
        r := Success(config);
      case Upstash(_) => r := UpstashReply();
    }

    method SetSkipConfig(user: string, source: string, id: string, config: Kv.Value) returns (r: Result<(), DbError>)
      modifies this, runtime, Namespaces()
      ensures storage.Some? && (old(storage).Some? ==> storage == old(storage))
      ensures runtime.kvNamespace == old(runtime.kvNamespace) && (old(storage).Some? ==> unchanged(runtime))
      ensures storage.value.Null? ==> r == Failure(NullStorage) && unchanged(old(Namespaces()))
      ensures storage.value.Noop? ==> r == Success(()) && unchanged(old(Namespaces()))
      ensures storage.value.CfKv? ==>
        var kv := storage.value.store.kv;
        && old(allocated(kv))
        && unchanged(old(Namespaces()) - {kv})
        && r == Success(())
        && kv.entries == old(kv.entries)[Kv.SkipConfigKey(user, source, id) := config]
      ensures !storage.value.Null? && !Caps(storage.value).setSkipConfig ==> r == Success(())
      ensures storage.value.Upstash? ==> unchanged(old(Namespaces()))
    {
      var b := GetStorage();
      if b.Null? {
        return Failure(NullStorage);
      }
      if !Caps(b).setSkipConfig {
        return Success(());
      }
      match b
      case Noop => r := Success(());
      case CfKv(store) =>
        store.SetSkipConfig(user, source, id, config);
        r := Success(());
      case Upstash(_) => r := UpstashReply();
    }

    method DeleteSkipConfig(user: string, source: string, id: string) returns (r: Result<(), DbError>)
      modifies this, runtime, Namespaces()
      ensures storage.Some? && (old(storage).Some? ==> storage == old(storage))
      ensures runtime.kvNamespace == old(runtime.kvNamespace) && (old(storage).Some? ==> unchanged(runtime))
      ensures storage.value.Null? ==> r == Failure(NullStorage) && unchanged(old(Namespaces()))
      ensures storage.value.Noop? ==> r == Success(()) && unchanged(old(Namespaces()))
      ensures storage.value.CfKv? ==>
        var kv := storage.value.store.kv;
        && old(allocated(kv))
        && unchanged(old(Namespaces()) - {kv})
        && r == Success(())
        && kv.entries == old(kv.entries) - {Kv.SkipConfigKey(user, source, id)}
      ensures !storage.value.Null? && !Caps(storage.value).deleteSkipConfig ==> r == Success(())
      ensures storage.value.Upstash? ==> unchanged(old(Namespaces()))
    {
      var b := GetStorage();
      if b.Null? {
        return Failure(NullStorage);
      }
      if !Caps(b).deleteSkipConfig {
        return Success(());
      }
      match b
      case Noop => r := Success(());
      case CfKv(store) =>
        store.DeleteSkipConfig(user, source, id);
        r := Success(());
      case Upstash(_) => r := UpstashReply();
    }

    method GetAllSkipConfigs(user: string) returns (r: Result<map<string, Kv.Value>, DbError>)
      modifies this, runtime
      ensures storage.Some? && (old(storage).Some? ==> storage == old(storage))
      ensures runtime.kvNamespace == old(runtime.kvNamespace) && (old(storage).Some? ==> unchanged(runtime))
      ensures storage.value.Null? ==> r == Failure(NullStorage)
      ensures storage.value.Noop? ==> r == Success(Noop.GetAllSkipConfigs(user))
      ensures storage.value.CfKv? ==> r.Success? && Kv.IsScan(r.value, storage.value.store.kv.entries, Kv.SkipConfigPrefix(user))
      ensures !storage.value.Null? && !Caps(storage.value).getAllSkipConfigs ==> r == Success(map[])
      ensures storage.value.Upstash? ==> r.Success? || r == Failure(BackendFailed)
    {
      var b := GetStorage();
      if b.Null? {
        return Failure(NullStorage);
      }
      if !Caps(b).getAllSkipConfigs {
        return Success(map[]);
      }
      match b
      case Noop => r := Success(Noop.GetAllSkipConfigs(user));
      case CfKv(store) =>
        var configs := store.GetAllSkipConfigs(user);
        r := Success(configs);
      case Upstash(_) => r := UpstashReply();
    }

    /**
     * `clearAllData`: "not supported" exactly when the backend lacks the
     * method, which neither Noop nor Cloudflare KV does.
     */
    method ClearAllData() returns (r: Result<(), DbError>)
      modifies this, runtime, Namespaces()
      ensures storage.Some? && (old(storage).Some? ==> storage == old(storage))
      ensures runtime.kvNamespace == old(runtime.kvNamespace) && (old(storage).Some? ==> unchanged(runtime))
      ensures r == Failure(ClearNotSupported) <==> !storage.value.Null? && !Caps(storage.value).clearAllData
      ensures storage.value.Null? ==> r == Failure(NullStorage) && unchanged(old(Namespaces()))
      ensures storage.value.Noop? ==> r == Success(()) && unchanged(old(Namespaces()))
      ensures storage.value.CfKv? ==> r == Success(()) && storage.value.store.kv.entries == map[]
      ensures storage.value.Upstash? ==> unchanged(old(Namespaces()))
    {
      var b := GetStorage();
      if b.Null? {
        return Failure(NullStorage);
      }
      if !Caps(b).clearAllData {
        return Failure(ClearNotSupported);
      }
      match b
      case Noop => r := Success(());
      case CfKv(store) =>
        store.ClearAllData();
        r := Success(());
      case Upstash(_) =>
        r := UpstashReply();
    }
  }
}
