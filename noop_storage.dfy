/**
 * The no-op backend: it keeps no state, so every read answers what the
 * Cloudflare KV backend would answer over an empty namespace.  Its writes
 * (including `clearAllData`) resolve without effect; they appear in the
 * manager, where a no-op backend leaves every namespace unchanged.
 */
module NoopStorage {
  import Crypto
  import Kv = CloudflareKv
  import opened Wrappers

  /** The namespace the no-op backend always looks like. */
  const Empty: map<string, Kv.Value> := map[]

  function GetPlayRecord(user: string, key: string): (r: Option<Kv.Value>)
    ensures r == Kv.Lookup(Empty, Kv.PlayRecordKey(user, key))
  {
    None
  }

  function GetAllPlayRecords(user: string): (records: map<string, Kv.Value>)
    ensures Kv.IsScan(records, Empty, Kv.PlayRecordPrefix(user))
  {
    map[]
  }

  function GetFavorite(user: string, key: string): (r: Option<Kv.Value>)
    ensures r == Kv.Lookup(Empty, Kv.FavoriteKey(user, key))
  {
    None
  }

  function GetAllFavorites(user: string): (favorites: map<string, Kv.Value>)
    ensures Kv.IsScan(favorites, Empty, Kv.FavoritePrefix(user))
  {
    map[]
  }

  function VerifyUser(user: string, password: string, kdf: Crypto.Kdf): (ok: bool)
    ensures ok == Kv.Verifies(Empty, user, password, kdf)
  {
    false
  }

  function CheckUserExist(user: string): (exists_: bool)
    ensures exists_ <==> Kv.UserKey(user) in Empty
  {
    false
  }

  function GetSearchHistory(user: string): (history: seq<string>)
    ensures history == Kv.History(Empty, user)
  {
    []
  }

  function GetAllUsers(): (users: seq<string>)
    ensures forall u :: u in users <==> Kv.UserKey(u) in Empty
  {
    []
  }

  function GetAdminConfig(): (config: Option<Kv.Value>)
    ensures config == Kv.Lookup(Empty, Kv.AdminConfigKey)
  {
    None
  }

  function GetSkipConfig(user: string, source: string, id: string): (config: Option<Kv.Value>)
    ensures config == Kv.Lookup(Empty, Kv.SkipConfigKey(user, source, id))
  {
    None
  }

  function GetAllSkipConfigs(user: string): (configs: map<string, Kv.Value>)
    ensures Kv.IsScan(configs, Empty, Kv.SkipConfigPrefix(user))
  {
    map[]
  }
}
