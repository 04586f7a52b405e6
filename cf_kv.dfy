/**
 * The Cloudflare Workers KV backend.  The namespace is a mutable map from
 * string keys to stored values; the backend builds every key from a fixed
 * family prefix and the username:
 *
 *   playrecord:<user>:<source+id>    favorite:<user>:<source+id>
 *   skipconfig:<user>:<source>:<id>  searchhistory:<user>
 *   user:<user>                      admin:config
 */
module CloudflareKv {
  import opened Wrappers
  import opened Strings
  import Crypto

  /**
   * A stored value.  JSON documents (play records, favorites, skip configs,
   * the admin config) are opaque; a search history is a JSON array of terms;
   * a user entry is the raw `salt:hash` string.
   */
  datatype Value = Doc(json: string) | Terms(terms: seq<string>) | Hash(hash: string)

  /** The search-history cap `.slice(0, 20)`. */
  const HistoryLimit: nat := 20

  function PlayRecordPrefix(user: string): string { "playrecord:" + user + ":" }
  function PlayRecordKey(user: string, key: string): string { PlayRecordPrefix(user) + key }
  function FavoritePrefix(user: string): string { "favorite:" + user + ":" }
  function FavoriteKey(user: string, key: string): string { FavoritePrefix(user) + key }
  function SkipConfigPrefix(user: string): string { "skipconfig:" + user + ":" }
  function SkipConfigKey(user: string, source: string, id: string): string { SkipConfigPrefix(user) + source + ":" + id }
  const UserPrefix: string := "user:"
  function UserKey(user: string): string { UserPrefix + user }
  function HistoryKey(user: string): string { "searchhistory:" + user }
  const AdminConfigKey: string := "admin:config"

  function Lookup(entries: map<string, Value>, key: string): Option<Value> {
    if key in entries then Some(entries[key]) else None
  }

  /** A read sees the last write or delete of its key, and only that key's. */
  lemma ReadAfterWrite(entries: map<string, Value>, key: string, v: Value, other: string)
    ensures Lookup(entries[key := v], key) == Some(v)
    ensures Lookup(entries - {key}, key) == None
    ensures other != key ==> Lookup(entries[key := v], other) == Lookup(entries, other)
    ensures other != key ==> Lookup(entries - {key}, other) == Lookup(entries, other)
  {
  }

  /**
   * `records` is what a prefix scan returns: one entry per stored key that
   * starts with `prefix`, under the rest of that key, with its value.
   */
  ghost predicate IsScan(records: map<string, Value>, entries: map<string, Value>, prefix: string) {
    && (forall r :: r in records <==> prefix + r in entries)
    && (forall r :: r in records ==> records[r] == entries[prefix + r])
  }

  /** A prefix scan has exactly one possible result. */
  lemma ScanUnique(a: map<string, Value>, b: map<string, Value>, entries: map<string, Value>, prefix: string)
    requires IsScan(a, entries, prefix) && IsScan(b, entries, prefix)
    ensures a == b
  {
    assert a.Keys == b.Keys;
  }

  /** Every stored key under the prefix shows up, stripped of it. */
  lemma ScanCoversKey(records: map<string, Value>, entries: map<string, Value>, prefix: string, k: string)
    requires IsScan(records, entries, prefix)
    requires k in entries && StartsWith(k, prefix)
    ensures k[|prefix|..] in records && records[k[|prefix|..]] == entries[k]
  {
    assert prefix + k[|prefix|..] == k;
  }

  /**
   * The key layout is ambiguous: the play records of user `u:v` sit under
   * the prefix of user `u`, so a scan for `u` reports them as `v:<key>`.
   * The same holds for favorites and skip configs.
   */
  lemma PrefixCoversColonUser(u: string, v: string, key: string)
    ensures PlayRecordKey(u + ":" + v, key) == PlayRecordPrefix(u) + (v + ":" + key)
    ensures FavoriteKey(u + ":" + v, key) == FavoritePrefix(u) + (v + ":" + key)
    ensures SkipConfigKey(u + ":" + v, key, "") == SkipConfigPrefix(u) + (v + ":" + key + ":")
  {
  }

  /** So two different (user, key) pairs can share one storage key. */
  lemma PlayRecordKeyNotInjective()
    ensures PlayRecordKey("a:b", "c") == PlayRecordKey("a", "b:c")
  {
    PrefixCoversColonUser("a", "b", "c");
  }

  /** `getSearchHistory`: the stored list, or `[]` when there is none. */
  function History(entries: map<string, Value>, user: string): seq<string> {
    match Lookup(entries, HistoryKey(user))
    case Some(Terms(t)) => t
    case _ => []
  }

  /** `history.filter((k) => k !== keyword)`. */
  function RemoveTerm(history: seq<string>, keyword: string): (r: seq<string>)
    ensures forall t :: t in r <==> t in history && t != keyword
    ensures |r| <= |history|
    ensures Distinct(history) ==> Distinct(r)
  {
    if history == [] then []
    else if history[0] == keyword then RemoveTerm(history[1..], keyword)
    else
      var rest := RemoveTerm(history[1..], keyword);
      assert Distinct(history) ==> history[0] !in history[1..] by {
        if Distinct(history) {
          forall j | 0 <= j < |history[1..]| ensures history[1..][j] != history[0] {
            assert history[1..][j] == history[j + 1];
          }
        }
      }
      [history[0]] + rest
  }

  /** Removing a term that is absent changes nothing. */
  lemma {:induction false} RemoveAbsentTerm(history: seq<string>, keyword: string)
    requires keyword !in history
    ensures RemoveTerm(history, keyword) == history
    decreases |history|
  {
    if history != [] {
      RemoveAbsentTerm(history[1..], keyword);
      assert [history[0]] + history[1..] == history;
    }
  }

  /** `RemoveTerm(h, k)` keeps the other terms in their order: it is a subsequence of `h`. */
  predicate IsSubsequence(a: seq<string>, b: seq<string>)
    decreases |b|
  {
    if a == [] then true
    else if b == [] then false
    else if a[0] == b[0] then IsSubsequence(a[1..], b[1..])
    else IsSubsequence(a, b[1..])
  }

  lemma {:induction false} SubsequenceOfPrefix(a: seq<string>, b: seq<string>, n: nat)
    requires IsSubsequence(a, b) && n <= |a|
    ensures IsSubsequence(a[..n], b)
    decreases |b|
  {
    if n > 0 && b != [] {
      if a[0] == b[0] {
        SubsequenceOfPrefix(a[1..], b[1..], n - 1);
        assert a[..n][1..] == a[1..][..n - 1];
      } else {
        SubsequenceOfPrefix(a, b[1..], n);
      }
    }
  }

  lemma {:induction false} RemoveTermIsSubsequence(history: seq<string>, keyword: string)
    ensures IsSubsequence(RemoveTerm(history, keyword), history)
    decreases |history|
  {
    if history != [] {
      RemoveTermIsSubsequence(history[1..], keyword);
      var r := RemoveTerm(history, keyword);
      if history[0] != keyword {
        assert r[0] == history[0] && r[1..] == RemoveTerm(history[1..], keyword);
      } else if r != [] {
        assert r[0] in r;
        assert r[0] != history[0];
      }
    }
  }

  function Min(a: nat, b: nat): nat { if a < b then a else b }

  /** `[keyword, ...history.filter((k) => k !== keyword)].slice(0, 20)`. */
  function AddToHistory(history: seq<string>, keyword: string): seq<string> {
    var rest := RemoveTerm(history, keyword);
    ([keyword] + rest)[..Min(HistoryLimit, 1 + |rest|)]
  }

  /**
   * The newest term comes first and exactly once, the list never exceeds the
   * cap, it only holds terms already there, the older terms keep their order,
   * and a duplicate-free history stays duplicate-free.
   */
  lemma AddToHistoryProperties(history: seq<string>, keyword: string)
    ensures var r := AddToHistory(history, keyword);
      && 1 <= |r| <= HistoryLimit
      && r[0] == keyword
      && keyword !in r[1..]
      && (forall t :: t in r ==> t == keyword || t in history)
      && IsSubsequence(r[1..], history)
      && (Distinct(history) ==> Distinct(r))
  {
    var rest := RemoveTerm(history, keyword);
    var r := AddToHistory(history, keyword);
    assert r[1..] == rest[..|r| - 1];
    RemoveTermIsSubsequence(history, keyword);
    SubsequenceOfPrefix(rest, history, |r| - 1);
    forall t | t in r[1..] ensures t in rest && t != keyword {
      assert t in rest;
    }
    if Distinct(history) {
      forall i, j | 0 <= i < j < |r| ensures r[i] != r[j] {
        if i > 0 {
          assert r[i] == rest[i - 1] && r[j] == rest[j - 1];
        } else {
          assert r[j] in r[1..];
        }
      }
    }
  }

  /** Re-inserting a term of a duplicate-free, full-or-shorter history moves it to the front without growing the list. */
  lemma ReinsertKeepsLength(history: seq<string>, keyword: string)
    requires keyword in history && Distinct(history) && |history| <= HistoryLimit
    ensures |AddToHistory(history, keyword)| == |history|
  {
    var rest := RemoveTerm(history, keyword);
    var i :| 0 <= i < |history| && history[i] == keyword;
    RemoveOneOccurrence(history, keyword, i);
  }

  lemma {:induction false} RemoveOneOccurrence(history: seq<string>, keyword: string, i: nat)
    requires i < |history| && history[i] == keyword && Distinct(history)
    ensures |RemoveTerm(history, keyword)| == |history| - 1
    decreases |history|
  {
    if i == 0 {
      assert keyword !in history[1..];
      RemoveAbsentTerm(history[1..], keyword);
    } else {
      RemoveOneOccurrence(history[1..], keyword, i - 1);
    }
  }

  /** Inserting `terms` one after another, first to last. */
  function AddAll(history: seq<string>, terms: seq<string>): seq<string>
    decreases |terms|
  {
    if terms == [] then history
    else AddToHistory(AddAll(history, terms[..|terms| - 1]), terms[|terms| - 1])
  }

  function Reverse(s: seq<string>): (r: seq<string>)
    ensures |r| == |s|
    ensures forall i :: 0 <= i < |s| ==> r[i] == s[|s| - 1 - i]
  {
    if s == [] then [] else [s[|s| - 1]] + Reverse(s[..|s| - 1])
  }

  /**
   * Starting from an empty history, inserting distinct terms leaves the 20
   * most recent of them, most recent first.
   */
  lemma {:induction false} AddAllDistinct(terms: seq<string>)
    requires Distinct(terms)
    ensures AddAll([], terms) == Reverse(terms)[..Min(HistoryLimit, |terms|)]
    decreases |terms|
  {
    if terms != [] {
      var init, k := terms[..|terms| - 1], terms[|terms| - 1];
      AddAllDistinct(init);
      var h := AddAll([], init);
      assert h == Reverse(init)[..Min(HistoryLimit, |init|)];
      assert k !in h by {
        forall i | 0 <= i < |h| ensures h[i] != k {
          assert h[i] == init[|init| - 1 - i] == terms[|init| - 1 - i];
        }
      }
      RemoveAbsentTerm(h, k);
      var rev := Reverse(terms);
      assert rev == [k] + Reverse(init);
    }
  }

  /** The keys `deleteUser(user)` removes. */
  predicate OwnedBy(user: string, k: string) {
    || k == UserKey(user)
    || k == HistoryKey(user)
    || StartsWith(k, PlayRecordPrefix(user))
    || StartsWith(k, FavoritePrefix(user))
    || StartsWith(k, SkipConfigPrefix(user))
  }

  function UserFootprint(user: string, keys: set<string>): set<string> {
    set k | k in keys && OwnedBy(user, k)
  }

  /**
   * After the cascade nothing of the user is left: no credential, no
   * history, and every per-user scan comes back empty.
   */
  lemma DeleteUserLeavesNothing(entries: map<string, Value>, user: string)
    ensures var after := entries - UserFootprint(user, entries.Keys);
      && UserKey(user) !in after
      && History(after, user) == []
      && IsScan(map[], after, PlayRecordPrefix(user))
      && IsScan(map[], after, FavoritePrefix(user))
      && IsScan(map[], after, SkipConfigPrefix(user))
  {
    var after := entries - UserFootprint(user, entries.Keys);
    forall r ensures PlayRecordPrefix(user) + r !in after {
      assert StartsWith(PlayRecordPrefix(user) + r, PlayRecordPrefix(user));
    }
    forall r ensures FavoritePrefix(user) + r !in after {
      assert StartsWith(FavoritePrefix(user) + r, FavoritePrefix(user));
    }
    forall r ensures SkipConfigPrefix(user) + r !in after {
      assert StartsWith(SkipConfigPrefix(user) + r, SkipConfigPrefix(user));
    }
  }

  /** The cascade also takes the play records, favorites and skip configs of every user named `user:...`. */
  lemma DeleteUserTakesColonUsers(entries: map<string, Value>, user: string, v: string, key: string)
    ensures var after := entries - UserFootprint(user, entries.Keys);
      && PlayRecordKey(user + ":" + v, key) !in after
      && FavoriteKey(user + ":" + v, key) !in after
      && SkipConfigKey(user + ":" + v, key, "") !in after
  {
    PrefixCoversColonUser(user, v, key);
    assert StartsWith(PlayRecordPrefix(user) + (v + ":" + key), PlayRecordPrefix(user));
    assert StartsWith(FavoritePrefix(user) + (v + ":" + key), FavoritePrefix(user));
    assert StartsWith(SkipConfigPrefix(user) + (v + ":" + key + ":"), SkipConfigPrefix(user));
  }

  /** `verifyUser`: a stored, non-empty hash that the password verifies against. */
  function Verifies(entries: map<string, Value>, user: string, password: string, kdf: Crypto.Kdf): bool {
    match Lookup(entries, UserKey(user))
    case Some(Hash(h)) => h != "" && Crypto.VerifyPassword(password, h, kdf)
    case _ => false
  }

  /** A registered (or re-passworded) user verifies with that password. */
  lemma RegisteredUserVerifies(entries: map<string, Value>, user: string, password: string, salt: Crypto.Salt, kdf: Crypto.Kdf)
    ensures Verifies(entries[UserKey(user) := Hash(Crypto.HashPassword(password, salt, kdf))], user, password, kdf)
  {
    Crypto.VerifyHashedPassword(password, salt, kdf);
  }

  /** A Workers KV namespace binding. */
  class KvNamespace {
    var entries: map<string, Value>

    constructor (initial: map<string, Value>)
      ensures entries == initial
    {
      entries := initial;
    }

    method Get(key: string) returns (v: Option<Value>)
      ensures v == Lookup(entries, key)
    {
      v := if key in entries then Some(entries[key]) else None;
    }

    method Put(key: string, value: Value)
      modifies this
      ensures entries == old(entries)[key := value]
    {
      entries := entries[key := value];
    }

    method Delete(key: string)
      modifies this
      ensures entries == old(entries) - {key}
    {
      entries := entries - {key};
    }

    /** `list({ prefix })`, taken as returning every matching key (no pagination). */
    method List(prefix: string) returns (keys: set<string>)
      ensures forall k :: k in keys <==> k in entries && StartsWith(k, prefix)
    {
      keys := set k | k in entries && StartsWith(k, prefix);
    }
  }

  class CloudflareKVStorage {
    const kv: KvNamespace

    constructor (kv: KvNamespace)
      ensures this.kv == kv
    {
      this.kv := kv;
    }

    /** The `getAll*` loop: read every listed key and file it under the key minus the prefix. */
    method CollectPrefix(prefix: string) returns (records: map<string, Value>)
      ensures IsScan(records, kv.entries, prefix)
    {
      var keys := kv.List(prefix);
      records := map[];
      var todo := keys;
      while todo != {}
        invariant todo <= keys
        invariant forall r :: r in records <==> prefix + r in keys - todo
        invariant forall r :: r in records ==> prefix + r in kv.entries && records[r] == kv.entries[prefix + r]
        decreases todo
      {
        var name :| name in todo;
        var value := kv.Get(name);
        var rest := name[|prefix|..];
        assert prefix + rest == name;
        if value.Some? {
          records := records[rest := value.value];
        }
        todo := todo - {name};
      }
    }

    method GetPlayRecord(user: string, key: string) returns (r: Option<Value>)
      ensures r == Lookup(kv.entries, PlayRecordKey(user, key))
    {
      r := kv.Get(PlayRecordKey(user, key));
    }

    method SetPlayRecord(user: string, key: string, record: Value)
      modifies kv
      ensures kv.entries == old(kv.entries)[PlayRecordKey(user, key) := record]
    {
      kv.Put(PlayRecordKey(user, key), record);
    }

    method GetAllPlayRecords(user: string) returns (records: map<string, Value>)
      ensures IsScan(records, kv.entries, PlayRecordPrefix(user))
    {
      records := CollectPrefix(PlayRecordPrefix(user));
    }

    method DeletePlayRecord(user: string, key: string)
      modifies kv
      ensures kv.entries == old(kv.entries) - {PlayRecordKey(user, key)}
    {
      kv.Delete(PlayRecordKey(user, key));
    }

    method GetFavorite(user: string, key: string) returns (r: Option<Value>)
      ensures r == Lookup(kv.entries, FavoriteKey(user, key))
    {
      r := kv.Get(FavoriteKey(user, key));
    }

    method SetFavorite(user: string, key: string, favorite: Value)
      modifies kv
      ensures kv.entries == old(kv.entries)[FavoriteKey(user, key) := favorite]
    {
      kv.Put(FavoriteKey(user, key), favorite);
    }

    method GetAllFavorites(user: string) returns (favorites: map<string, Value>)
      ensures IsScan(favorites, kv.entries, FavoritePrefix(user))
    {
      favorites := CollectPrefix(FavoritePrefix(user));
    }

    method DeleteFavorite(user: string, key: string)
      modifies kv
      ensures kv.entries == old(kv.entries) - {FavoriteKey(user, key)}
    {
      kv.Delete(FavoriteKey(user, key));
    }

    /** `registerUser`: store a fresh `salt:hash` (the salt is the random input). */
    method RegisterUser(user: string, password: string, salt: Crypto.Salt, kdf: Crypto.Kdf)
      modifies kv
      ensures kv.entries == old(kv.entries)[UserKey(user) := Hash(Crypto.HashPassword(password, salt, kdf))]
    {
      kv.Put(UserKey(user), Hash(Crypto.HashPassword(password, salt, kdf)));
    }

    method VerifyUser(user: string, password: string, kdf: Crypto.Kdf) returns (ok: bool)
      ensures ok == Verifies(kv.entries, user, password, kdf)
      ensures UserKey(user) !in kv.entries ==> !ok
    {
      var stored := kv.Get(UserKey(user));
      if stored.None? || !stored.value.Hash? || stored.value.hash == "" {
        return false;
      }
      ok := Crypto.VerifyPassword(password, stored.value.hash, kdf);
    }

    method CheckUserExist(user: string) returns (exists_: bool)
      ensures exists_ <==> UserKey(user) in kv.entries
    {
      var stored := kv.Get(UserKey(user));
      exists_ := stored.Some?;
    }

    method ChangePassword(user: string, newPassword: string, salt: Crypto.Salt, kdf: Crypto.Kdf)
      modifies kv
      ensures kv.entries == old(kv.entries)[UserKey(user) := Hash(Crypto.HashPassword(newPassword, salt, kdf))]
    {
      kv.Put(UserKey(user), Hash(Crypto.HashPassword(newPassword, salt, kdf)));
    }

    /** Delete every key of the listed keys, one at a time. */
    method DeleteAll(keys: set<string>)
      modifies kv
      ensures kv.entries == old(kv.entries) - keys
    {
      var todo := keys;
      while todo != {}
        invariant todo <= keys
        invariant kv.entries == old(kv.entries) - (keys - todo)
        decreases todo
      {
        var name :| name in todo;
        kv.Delete(name);
        todo := todo - {name};
      }
    }

    /** `deleteUser`: the credential, then the three prefix families and the history. */
    method DeleteUser(user: string)
      modifies kv
      ensures kv.entries == old(kv.entries) - UserFootprint(user, old(kv.entries).Keys)
    {
      ghost var before := kv.entries;
      kv.Delete(UserKey(user));
      ghost var e1 := kv.entries;
      var playRecords := kv.List(PlayRecordPrefix(user));
      DeleteAll(playRecords);
      ghost var e2 := kv.entries;
      var favorites := kv.List(FavoritePrefix(user));
      DeleteAll(favorites);
      ghost var e3 := kv.entries;
      kv.Delete(HistoryKey(user));
      ghost var e4 := kv.entries;
      var skipConfigs := kv.List(SkipConfigPrefix(user));
      DeleteAll(skipConfigs);
      forall k ensures k in kv.entries <==> k in before && !OwnedBy(user, k) {
        assert k in e1 <==> k in before && k != UserKey(user);
        assert k in e2 <==> k in e1 && !StartsWith(k, PlayRecordPrefix(user));
        assert k in e3 <==> k in e2 && !StartsWith(k, FavoritePrefix(user));
        assert k in e4 <==> k in e3 && k != HistoryKey(user);
      }
      assert kv.entries.Keys == before.Keys - UserFootprint(user, before.Keys);
    }

    method GetSearchHistory(user: string) returns (history: seq<string>)
      ensures history == History(kv.entries, user)
    {
      var stored := kv.Get(HistoryKey(user));
      history := if stored.Some? && stored.value.Terms? then stored.value.terms else [];
    }

    method AddSearchHistory(user: string, keyword: string)
      modifies kv
      ensures kv.entries == old(kv.entries)[HistoryKey(user) := Terms(AddToHistory(History(old(kv.entries), user), keyword))]
    {
      var history := GetSearchHistory(user);
      history := AddToHistory(history, keyword);
      kv.Put(HistoryKey(user), Terms(history));
    }

    /**
     * `deleteSearchHistory`: a non-empty keyword is filtered out (and an
     * empty list is written even if there was no history); a missing or empty
     * keyword deletes the whole history.
     */
    method DeleteSearchHistory(user: string, keyword: Option<string>)
      modifies kv
      ensures keyword.Some? && keyword.value != "" ==>
        kv.entries == old(kv.entries)[HistoryKey(user) := Terms(RemoveTerm(History(old(kv.entries), user), keyword.value))]
      ensures !(keyword.Some? && keyword.value != "") ==>
        kv.entries == old(kv.entries) - {HistoryKey(user)}
    {
      if keyword.Some? && keyword.value != "" {
        var history := GetSearchHistory(user);
        history := RemoveTerm(history, keyword.value);
        kv.Put(HistoryKey(user), Terms(history));
      } else {
        kv.Delete(HistoryKey(user));
      }
    }

    /** `getAllUsers`: every `user:` key with the prefix stripped (the listing order is not modelled). */
    method GetAllUsers() returns (users: seq<string>)
      ensures forall u :: u in users <==> UserKey(u) in kv.entries
      ensures Distinct(users)
    {
      var keys := kv.List(UserPrefix);
      users := [];
      var todo := keys;
      while todo != {}
        invariant todo <= keys
        invariant forall u :: u in users <==> UserKey(u) in keys - todo
        invariant Distinct(users)
        decreases todo
      {
        var name :| name in todo;
        var user := name[|UserPrefix|..];
        assert UserKey(user) == name;
        users := users + [user];
        todo := todo - {name};
      }
    }

    method GetAdminConfig() returns (config: Option<Value>)
      ensures config == Lookup(kv.entries, AdminConfigKey)
    {
      config := kv.Get(AdminConfigKey);
    }

    method SetAdminConfig(config: Value)
      modifies kv
      ensures kv.entries == old(kv.entries)[AdminConfigKey := config]
    {
      kv.Put(AdminConfigKey, config);
    }

    method GetSkipConfig(user: string, source: string, id: string) returns (config: Option<Value>)
      ensures config == Lookup(kv.entries, SkipConfigKey(user, source, id))
    {
      config := kv.Get(SkipConfigKey(user, source, id));
    }

    method SetSkipConfig(user: string, source: string, id: string, config: Value)
      modifies kv
      ensures kv.entries == old(kv.entries)[SkipConfigKey(user, source, id) := config]
    {
      kv.Put(SkipConfigKey(user, source, id), config);
    }

    method DeleteSkipConfig(user: string, source: string, id: string)
      modifies kv
      ensures kv.entries == old(kv.entries) - {SkipConfigKey(user, source, id)}
    {
      kv.Delete(SkipConfigKey(user, source, id));
    }

    /** `getAllSkipConfigs`: keyed by `<source>:<id>`. */
    method GetAllSkipConfigs(user: string) returns (configs: map<string, Value>)
      ensures IsScan(configs, kv.entries, SkipConfigPrefix(user))
    {
      configs := CollectPrefix(SkipConfigPrefix(user));
    }

    /** `clearAllData`: list every key and delete it. */
    method ClearAllData()
      modifies kv
      ensures kv.entries == map[]
    {
      var keys := kv.List("");
      assert keys == kv.entries.Keys;
      DeleteAll(keys);
    }
  }
}
