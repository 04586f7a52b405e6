# LunaTV storage layer — a Dafny model

This project models the storage layer of LunaTV.

- **Storage facade.** It picks a backend from the `NEXT_PUBLIC_STORAGE_TYPE` setting. The choices are a Cloudflare Workers KV namespace (`cf-kv`), an Upstash Redis client, or the no-op backend. The no-op backend is used for `redis` and `kvrocks`, for `cf-kv` before a namespace is bound, and for `cf-kv` during the build phase. The facade memoises the chosen backend and forwards every call to it. The optional operations (admin config, skip configs, clear-all) are probed at run time.
- **Cloudflare KV backend.** Key layouts, prefix scans, the search-history list, password hashing, and the cascade delete of a user.
- **No-op backend.**
- **Password hashing and payload encryption** (`crypto.ts`).
- **Base64 and byte conversions** (`encoding.ts`).
- **Encrypted backup export.** The admin route checks, gathers every user's data, compresses, Base64-encodes and encrypts it, then serves it under a timestamped file name.
- **Two player helpers:** the clock display and the ad-marker filter for M3U8 playlists.
- **Admin user table:** the rule for which rows can be selected.

## Modelling choices

**Modules.** There is one module per source file:

| Module | Source file |
|---|---|
| `Db` | `db.ts` |
| `CloudflareKv` | `cf-kv.db.ts` |
| `NoopStorage` | `noopStorage.ts` |
| `Crypto` | `crypto.ts` |
| `Encoding` | `encoding.ts` |
| `Export` | the export route |
| `PlayerHelpers` | `playerHelpers.tsx` |
| `UserSelection` | the user table |

`Wrappers`, `Strings`, `Bytes` and `Base64` are helpers for the JavaScript primitives the code relies on:

- `String.prototype.split` and `join`
- decimal formatting and `padStart`
- `charCodeAt` and `String.fromCharCode`
- `btoa` and `atob`, as section 4 of RFC 4648

**Classes where state changes in place.**

- The KV namespace is a class. Its `entries` field is a map from key to stored value.
- `CloudflareKVStorage` is a class over that namespace. Its methods are proved against specification functions:
  - `History` and `AddToHistory` for the search history
  - `UserFootprint` for the cascade delete
  - `Verifies` for the password check
  - `IsScan` for prefix listings
- The module-level state of `db.ts` is `Db.StorageRuntime`. That state is the bound KV namespace and the memoised instance.
- The `DbManager` singleton is `Db.DbManager`, with its cached `storage`.
- The user table is `UserSelection.UserTable`, with its `selectedUsers` set.

**Loops that the code writes** are methods with invariants, proved equal to a specification function:

- the byte loops of `encoding.ts`
- the key scans and the cascade delete of the KV backend
- the per-user collection of the export route
- the playlist filter

**Stored values.** A stored KV value is one of three shapes:

- an opaque JSON document
- a list of search terms
- a password hash

JSON encoding itself is not modelled.

**External libraries are parameters**, given as function-typed inputs:

- PBKDF2 key derivation
- AES encryption with a passphrase (`CryptoJS.AES`)
- gzip
- `JSON.stringify`
- the random salt
- the wall clock

**Upstash.** The Upstash backend is opaque. Its replies are chosen by the verifier (`Db.UpstashReply`). Only its set of implemented optional methods (`Db.Capabilities`) is an input.

**Invalid storage settings.** Any storage type other than `redis`, `upstash`, `kvrocks` or `cf-kv` makes `createStorageAsync` return `null`. Examples are the default `localstorage` and an unknown name. Every manager call then dereferences `null`, so it throws. The model reports this as `DbError.NullStorage`.

**Clearing the no-op backend.** One might expect `clearAllData` on a backend that cannot clear to fail. In the code, the no-op backend declares `clearAllData` and resolves without doing anything, so the manager's check passes. The model follows the code: `Db.DbManager.ClearAllData` succeeds on the no-op backend. It reports `ClearNotSupported` only for a non-null backend that lacks the method, which can only be an Upstash client.

## Model

| member | source | states |
|---|---|---|
| Db.UnsetStorageTypeIsNull | src/lib/db.ts:10-49 | An unset or empty storage type resolves to the null backend; a setting that selects a real backend is the configured value itself |
| Db.SplitStorageKey | src/lib/db.ts:67-70 | Splitting a storage key at its first `+` fails exactly when the key has no `+`; the source part then has no `+` |
| Db.StorageKeyRoundTrip | src/lib/db.ts:67-70 | When the source has no `+`, the `source+id` key splits back into that source and id |
| Db.StorageKeyInjective | src/lib/db.ts:67-70 | Two `+`-free sources with any ids give the same key only when source and id both agree |
| Db.StorageKeyCollision | src/lib/db.ts:67-70 | A source containing `+` collides: `a+b`/`c` and `a`/`b+c` produce the same key |
| Db.Select | src/lib/db.ts:26-49 | Upstash exactly for `upstash`; KV exactly for `cf-kv` with a bound namespace; no-op exactly for `redis`, `kvrocks` and unbound `cf-kv`; null for every other setting |
| Db.SelectIgnoresBinding | src/lib/db.ts:26-49 | The KV binding affects only the `cf-kv` choice |
| Db.StorageRuntime.constructor | src/lib/db.ts:10-23 | Starts with no bound namespace and no memoised instance |
| Db.StorageRuntime.SetKVNamespace | src/lib/db.ts:19-23 | Binds the namespace and leaves the memoised instance alone |
| Db.StorageRuntime.CreateStorage | src/lib/db.ts:26-49 | Builds a backend of the kind `Select` names; a KV backend is fresh and wraps the bound namespace |
| Db.StorageRuntime.GetStorageAsync | src/lib/db.ts:52-65 | Returns the memoised instance when there is one; in the build phase with `cf-kv` returns an uncached no-op backend; otherwise creates, memoises and returns |
| Db.UpstashReply | src/lib/db.ts:33-35 | An arbitrary reply from the opaque Upstash client |
| Db.DbManager.constructor | src/lib/db.ts:72-81 | The manager starts with no cached storage |
| Db.DbManager.GetStorage | src/lib/db.ts:75-81 | A cached backend is reused; otherwise the runtime's choice is cached; a KV backend's namespace was already allocated |
| Db.DbManager.GetPlayRecord | src/lib/db.ts:84-92 | Null backend fails; no-op gives no record; KV gives the stored record under `source+id`; the cache is kept |
| Db.DbManager.SavePlayRecord | src/lib/db.ts:94-103 | KV stores the record under the user's play-record key for `source+id` and leaves every other key, every other namespace and the runtime's state alone; no-op changes nothing |
| Db.DbManager.GetAllPlayRecords | src/lib/db.ts:105-110 | KV returns a scan of the user's play-record prefix; no-op returns nothing |
| Db.DbManager.DeletePlayRecord | src/lib/db.ts:112-120 | KV removes exactly that play-record key |
| Db.DbManager.GetFavorite | src/lib/db.ts:123-131 | KV gives the stored favorite under `source+id`; no-op gives none |
| Db.DbManager.SaveFavorite | src/lib/db.ts:133-142 | KV stores the favorite under the user's favorite key and leaves every other key, every other namespace and the runtime's state alone |
| Db.DbManager.GetAllFavorites | src/lib/db.ts:144-149 | KV returns a scan of the user's favorite prefix |
| Db.DbManager.DeleteFavorite | src/lib/db.ts:151-159 | KV removes exactly that favorite key |
| Db.DbManager.IsFavorited | src/lib/db.ts:161-168 | True exactly when the backend holds a favorite for that key |
| Db.DbManager.RegisterUser | src/lib/db.ts:171-174 | KV stores the salted hash of the password under `user:<name>` and leaves every other key, every other namespace and the runtime's state alone |
| Db.DbManager.VerifyUser | src/lib/db.ts:176-179 | KV answers whether the stored hash accepts the password; no-op answers false |
| Db.DbManager.CheckUserExist | src/lib/db.ts:182-185 | KV answers whether `user:<name>` is present |
| Db.DbManager.ChangePassword | src/lib/db.ts:187-190 | KV replaces the stored hash with one for the new password |
| Db.DbManager.DeleteUser | src/lib/db.ts:192-195 | KV removes exactly the user's footprint |
| Db.DbManager.GetSearchHistory | src/lib/db.ts:198-201 | KV returns the stored term list (empty when absent) |
| Db.DbManager.AddSearchHistory | src/lib/db.ts:203-206 | KV stores `AddToHistory` of the old list |
| Db.DbManager.DeleteSearchHistory | src/lib/db.ts:208-211 | KV filters out a non-empty keyword, or drops the whole list |
| Db.DbManager.GetAllUsers | src/lib/db.ts:214-220 | KV lists exactly the registered names, without repeats |
| Db.DbManager.GetAdminConfig | src/lib/db.ts:223-229 | A backend without the method yields nothing; KV yields the stored config |
| Db.DbManager.SaveAdminConfig | src/lib/db.ts:231-236 | A backend without the method changes nothing and succeeds; KV stores the config |
| Db.DbManager.GetSkipConfig | src/lib/db.ts:239-249 | A backend without the method yields nothing; KV yields the stored skip config |
| Db.DbManager.SetSkipConfig | src/lib/db.ts:251-261 | KV stores the skip config under `skipconfig:<user>:<source>:<id>` |
| Db.DbManager.DeleteSkipConfig | src/lib/db.ts:263-272 | KV removes exactly that skip-config key |
| Db.DbManager.GetAllSkipConfigs | src/lib/db.ts:274-282 | A backend without the method yields the empty mapping; KV returns a scan of the user's skip prefix |
| Db.DbManager.ClearAllData | src/lib/db.ts:285-292 | Fails with "not supported" exactly when a non-null backend lacks the method; no-op succeeds; KV ends empty |
| CloudflareKv.ReadAfterWrite | src/lib/cf-kv.db.ts:13-46 | A read after a write of the same key sees the written value, a read after its delete sees nothing, and other keys read as before |
| CloudflareKv.ScanUnique | src/lib/cf-kv.db.ts:29-42 | Two scans of the same prefix agree on their key set and values |
| CloudflareKv.ScanCoversKey | src/lib/cf-kv.db.ts:29-42 | A scan of a user's prefix contains every stored record of that user, under the key's suffix |
| CloudflareKv.PrefixCoversColonUser | src/lib/cf-kv.db.ts:29-42 | Keys of a user named `u:v` fall under the prefix of user `u` |
| CloudflareKv.PlayRecordKeyNotInjective | src/lib/cf-kv.db.ts:13-14 | The play-record key is not injective in source and id when ids contain `:` |
| CloudflareKv.RemoveTerm | src/lib/cf-kv.db.ts:125-145 | Removing a keyword drops every copy of it, keeps every other term, and keeps terms distinct |
| CloudflareKv.AddToHistoryProperties | src/lib/cf-kv.db.ts:125-132 | After adding, the list holds 1 to 20 terms, starts with the keyword, has no other copy of it, keeps the old terms in order, and stays distinct |
| CloudflareKv.ReinsertKeepsLength | src/lib/cf-kv.db.ts:125-132 | Re-adding a term already present keeps the list length when it is within the limit |
| CloudflareKv.AddAllDistinct | src/lib/cf-kv.db.ts:125-132 | Adding distinct terms one by one to an empty history gives the newest 20, newest first |
| CloudflareKv.DeleteUserLeavesNothing | src/lib/cf-kv.db.ts:102-118 | After the cascade delete, no key owned by the user remains and every other key is intact |
| CloudflareKv.DeleteUserTakesColonUsers | src/lib/cf-kv.db.ts:102-118 | Deleting user `u` also removes the play records of a user named `u:v` |
| CloudflareKv.RegisteredUserVerifies | src/lib/cf-kv.db.ts:80-91 | After registration the same password verifies |
| CloudflareKv.KvNamespace.Get | src/lib/cf-kv.db.ts:14 | A read of the namespace binding finds exactly the stored value |
| CloudflareKv.KvNamespace.Put | src/lib/cf-kv.db.ts:23-26 | A write replaces that one key |
| CloudflareKv.KvNamespace.Delete | src/lib/cf-kv.db.ts:45 | A delete removes that one key |
| CloudflareKv.KvNamespace.List | src/lib/cf-kv.db.ts:33 | A listing returns exactly the stored keys with the prefix |
| CloudflareKv.CloudflareKVStorage.constructor | src/lib/cf-kv.db.ts:9-11 | The storage wraps the given namespace |
| CloudflareKv.CloudflareKVStorage.CollectPrefix | src/lib/cf-kv.db.ts:29-42 | The loop over listed keys builds a scan of the prefix |
| CloudflareKv.CloudflareKVStorage.GetPlayRecord | src/lib/cf-kv.db.ts:13-16 | Returns the document under the play-record key, if any |
| CloudflareKv.CloudflareKVStorage.SetPlayRecord | src/lib/cf-kv.db.ts:18-27 | Writes that one key |
| CloudflareKv.CloudflareKVStorage.GetAllPlayRecords | src/lib/cf-kv.db.ts:29-42 | A scan of the user's play-record prefix |
| CloudflareKv.CloudflareKVStorage.DeletePlayRecord | src/lib/cf-kv.db.ts:44-46 | Removes that one key |
| CloudflareKv.CloudflareKVStorage.GetFavorite | src/lib/cf-kv.db.ts:48-51 | Returns the document under the favorite key, if any |
| CloudflareKv.CloudflareKVStorage.SetFavorite | src/lib/cf-kv.db.ts:53-59 | Writes that one key |
| CloudflareKv.CloudflareKVStorage.GetAllFavorites | src/lib/cf-kv.db.ts:61-74 | A scan of the user's favorite prefix |
| CloudflareKv.CloudflareKVStorage.DeleteFavorite | src/lib/cf-kv.db.ts:76-78 | Removes that one key |
| CloudflareKv.CloudflareKVStorage.RegisterUser | src/lib/cf-kv.db.ts:80-83 | Stores `HashPassword` of the password with the given salt |
| CloudflareKv.CloudflareKVStorage.VerifyUser | src/lib/cf-kv.db.ts:85-91 | True exactly when the stored hash accepts the password; false when the user is absent |
| CloudflareKv.CloudflareKVStorage.CheckUserExist | src/lib/cf-kv.db.ts:93-95 | True exactly when `user:<name>` is present |
| CloudflareKv.CloudflareKVStorage.ChangePassword | src/lib/cf-kv.db.ts:97-100 | Overwrites the hash with one for the new password |
| CloudflareKv.CloudflareKVStorage.DeleteAll | src/lib/cf-kv.db.ts:105-116 | Removes exactly the listed keys |
| CloudflareKv.CloudflareKVStorage.DeleteUser | src/lib/cf-kv.db.ts:102-118 | The new entries are the old ones minus the user's footprint |
| CloudflareKv.CloudflareKVStorage.GetSearchHistory | src/lib/cf-kv.db.ts:120-123 | Returns the stored list, or empty |
| CloudflareKv.CloudflareKVStorage.AddSearchHistory | src/lib/cf-kv.db.ts:125-132 | Stores `AddToHistory` of the old list |
| CloudflareKv.CloudflareKVStorage.DeleteSearchHistory | src/lib/cf-kv.db.ts:134-145 | A non-empty keyword is filtered out; otherwise the key is deleted |
| CloudflareKv.CloudflareKVStorage.GetAllUsers | src/lib/cf-kv.db.ts:147-150 | A name is listed exactly when its `user:` key is present; no repeats |
| CloudflareKv.CloudflareKVStorage.GetAdminConfig | src/lib/cf-kv.db.ts:152-155 | Returns the document under `admin:config`, if any |
| CloudflareKv.CloudflareKVStorage.SetAdminConfig | src/lib/cf-kv.db.ts:157-159 | Writes `admin:config` |
| CloudflareKv.CloudflareKVStorage.GetSkipConfig | src/lib/cf-kv.db.ts:161-168 | Returns the document under the skip key, if any |
| CloudflareKv.CloudflareKVStorage.SetSkipConfig | src/lib/cf-kv.db.ts:170-180 | Writes that one key |
| CloudflareKv.CloudflareKVStorage.DeleteSkipConfig | src/lib/cf-kv.db.ts:182-188 | Removes that one key |
| CloudflareKv.CloudflareKVStorage.GetAllSkipConfigs | src/lib/cf-kv.db.ts:190-203 | A scan of the user's skip prefix |
| CloudflareKv.CloudflareKVStorage.ClearAllData | src/lib/cf-kv.db.ts:205-210 | The namespace ends empty |
| NoopStorage.GetPlayRecord | src/lib/noopStorage.ts:5-7 | Agrees with the KV behaviour on an empty namespace: no record |
| NoopStorage.GetAllPlayRecords | src/lib/noopStorage.ts:11-13 | Agrees with a scan of an empty namespace |
| NoopStorage.GetFavorite | src/lib/noopStorage.ts:18-20 | No favorite |
| NoopStorage.GetAllFavorites | src/lib/noopStorage.ts:24-26 | Agrees with a scan of an empty namespace |
| NoopStorage.VerifyUser | src/lib/noopStorage.ts:34-36 | Agrees with KV verification against an empty namespace: false |
| NoopStorage.CheckUserExist | src/lib/noopStorage.ts:37-39 | No user exists |
| NoopStorage.GetSearchHistory | src/lib/noopStorage.ts:47-49 | The history of an empty namespace: empty |
| NoopStorage.GetAllUsers | src/lib/noopStorage.ts:57-59 | No users |
| NoopStorage.GetAdminConfig | src/lib/noopStorage.ts:61-63 | No config |
| NoopStorage.GetSkipConfig | src/lib/noopStorage.ts:68-70 | No skip config |
| NoopStorage.GetAllSkipConfigs | src/lib/noopStorage.ts:77-79 | Agrees with a scan of an empty namespace |
| Crypto.Hex | src/lib/crypto.ts:61-68 | Two hex digits per byte |
| Crypto.HexInjective | src/lib/crypto.ts:61-68 | Different byte strings give different hex text |
| Crypto.NoColonInHex | src/lib/crypto.ts:61-68 | Hex text never contains the `:` separator |
| Crypto.HashPassword | src/lib/crypto.ts:61-68 | The stored text is 97 characters with `:` at position 32; splitting at `:` gives the hex salt and the hex key derived from the password and that salt |
| Crypto.VerifyPassword | src/lib/crypto.ts:70-83 | Accepts exactly when the first two `:`-pieces are non-empty and the second equals the key derived from the password and the first; text without `:` is rejected |
| Crypto.VerifyAnySalt | src/lib/crypto.ts:70-83 | Any non-empty, colon-free salt followed by `:` and the key derived with it verifies |
| Crypto.VerifyHashedPassword | src/lib/crypto.ts:61-83 | A password verifies against its own hash |
| Crypto.VerifyOtherPassword | src/lib/crypto.ts:70-83 | Another password verifies only if it derives the same key under that salt |
| Crypto.VerifyIgnoresExtraPieces | src/lib/crypto.ts:70-83 | Only the first two `:`-separated pieces are read |
| Crypto.Decrypt | src/lib/crypto.ts:29-42 | An empty or failed decryption becomes `DecryptionFailed` |
| Crypto.CanDecrypt | src/lib/crypto.ts:50-57 | The probe is true exactly when the cipher yields a non-empty text |
| Crypto.CanDecryptIffDecrypts | src/lib/crypto.ts:50-57 | The probe is true exactly when decryption succeeds |
| Crypto.EncryptDecrypt | src/lib/crypto.ts:14-42 | With an inverse cipher, decrypting the encrypted text gives it back; an empty text decrypts to `DecryptionFailed` |
| Encoding.Btoa | src/lib/encoding.ts:23 | Defined exactly when every character is a Latin-1 code unit; then it is the Base64 encoding of those codes |
| Encoding.Atob | src/lib/encoding.ts:4 | Decodes Base64 text back to Latin-1 text, and fails on malformed input |
| Encoding.Uint8ArrayToBase64 | src/lib/encoding.ts:16-27 | The byte loop and `btoa` give the Base64 encoding of the array's bytes |
| Encoding.Base64ToUint8Array | src/lib/encoding.ts:2-14 | A new array holding the decoded bytes; malformed text fails |
| Encoding.BytesRoundTrip | src/lib/encoding.ts:2-27 | Decoding the encoding of any byte array gives the same bytes |
| Base64.EncodeLength | src/lib/encoding.ts:23 | The encoded length is four per started group of three |
| Base64.DecodeEncode | src/lib/encoding.ts:2-27 | Section 4 of RFC 4648: decoding an encoding gives back the bytes |
| Bytes.CharCodesOfLatin1 | src/lib/encoding.ts:7-22 | `charCodeAt` undoes `String.fromCharCode` on bytes |
| Strings.Split | src/lib/crypto.ts:74 | Split gives at least one piece, no piece holds the separator, and joining gives the text back |
| Strings.SplitJoin | src/app/play/playerHelpers.tsx:24-32 | Splitting a join of separator-free lines gives back the lines |
| Strings.ParseNatToString | src/app/api/admin/data_migration/export/route.ts:101-109 | A decimal rendering parses back to the number |
| Strings.ParsePad2 | src/app/api/admin/data_migration/export/route.ts:101-109 | A number padded to two digits reads back as that number |
| Export.Status | src/app/api/admin/data_migration/export/route.ts:17-48 | 401 exactly for a missing login or a non-owner; 400 exactly for local storage or a missing password; 500 for the rest |
| Export.CheckExport | src/app/api/admin/data_migration/export/route.ts:17-48 | Local storage is refused; the request is accepted exactly when the backend is shared, the logged-in owner asks, the config is available and the password is a non-empty string, and that password is returned |
| Export.ChecksInOrder | src/app/api/admin/data_migration/export/route.ts:17-48 | Every outcome in the route's order: no user or an empty name gives `NotLoggedIn`, another user `NotOwner`; for the owner a thrown or null config gives its message or `ConfigUnavailable`, a thrown body its message, a missing or non-string password `PasswordMissing`, and otherwise the password |
| Export.PasswordAccepted | src/app/api/admin/data_migration/export/route.ts:45-48 | For the logged-in owner with an available config, the body passes exactly when its password is a non-empty string |
| Export.Dedupe | src/app/api/admin/data_migration/export/route.ts:63-66 | Keeps each name once, with the same members |
| Export.DedupeKeepsFirstOccurrences | src/app/api/admin/data_migration/export/route.ts:66 | The names come in the order of their first occurrences in the input |
| Export.DedupeDistinct | src/app/api/admin/data_migration/export/route.ts:63-66 | A list without repeats is unchanged |
| Export.ExportedUsersProperties | src/app/api/admin/data_migration/export/route.ts:63-66 | The exported names are the listed names plus the owner, without repeats |
| Export.PasswordKeyInjective | src/app/api/admin/data_migration/export/route.ts:130-161 | Different users read different `u:<name>:pwd` keys |
| Export.GetUserPasswordReadsOwnKey | src/app/api/admin/data_migration/export/route.ts:130-161 | A user's password depends only on the client's answer for that user's own key, through either client shape; a thrown lookup gives null |
| Export.CollectAll | src/app/api/admin/data_migration/export/route.ts:69-84 | Succeeds exactly when every user's collection succeeds; the keys are the users; otherwise the first failure |
| Export.CollectAllFailurePersists | src/app/api/admin/data_migration/export/route.ts:69-84 | One failing user makes the whole collection fail |
| Export.WithOwnerPassword | src/app/api/admin/data_migration/export/route.ts:87-88 | The owner's password is set from the configured one; other entries are untouched |
| Export.BackupFileName | src/app/api/admin/data_migration/export/route.ts:101-109 | The name starts with `moontv-backup-` and ends with `.dat` |
| Export.DateFields | src/app/api/admin/data_migration/export/route.ts:101-104 | The date part reads back as year, 1-based month and day |
| Export.TimeFields | src/app/api/admin/data_migration/export/route.ts:104-108 | The time part reads back as hours, minutes and seconds |
| Export.StampFields | src/app/api/admin/data_migration/export/route.ts:101-108 | The stamp is `date-time`, and both halves read back |
| Export.BackupFileNameFields | src/app/api/admin/data_migration/export/route.ts:101-109 | The clock reading can be recovered from the file name |
| Export.Payload | src/app/api/admin/data_migration/export/route.ts:51-88 | The archive is built exactly when the user list is read and every exported user's collections are read; otherwise it fails with the list's error or the first failing user's; when built it carries the config, one entry per exported user and the owner's configured password |
| Export.PayloadEntries | src/app/api/admin/data_migration/export/route.ts:69-88 | Each entry holds that user's collections; the owner's password is the configured one, every other user's is the raw-client answer |
| Export.NoRawClientNoPasswords | src/app/api/admin/data_migration/export/route.ts:130-161 | Without a raw client, every non-owner user is exported with a null password |
| Export.ExportResponse | src/app/api/admin/data_migration/export/route.ts:14-127 | A failed check is refused with that check; after the checks pass, a failed collection is refused with its message, a failed cipher with `EncryptionFailed`, and otherwise the download is the cipher's output with its length and the backup file name |
| Export.ExportSucceeds | src/app/api/admin/data_migration/export/route.ts:17-121 | When the owner asks with a readable config and a non-empty password, every read succeeds and the cipher answers, the response is the download under the backup file name |
| Export.ArtifactRoundTrip | src/app/api/admin/data_migration/export/route.ts:91-98 | With an inverse cipher, decrypting and Base64-decoding the download gives back the gzip output |
| Export.CollectUserData | src/app/api/admin/data_migration/export/route.ts:69-84 | The per-user loop computes `CollectAll` |
| Export.EncryptPayload | src/app/api/admin/data_migration/export/route.ts:91-98 | The byte buffer, Base64 and encryption equal encrypting the plaintext |
| Export.Post | src/app/api/admin/data_migration/export/route.ts:14-127 | The handler's response is `ExportResponse` of its inputs |
| PlayerHelpers.FormatTime | src/app/play/playerHelpers.tsx:4-20 | Zero shows `00:00`; under an hour the form is `MM:SS`; otherwise it is `HH:MM:SS`, the hours padded to at least two digits, with colons three and six places from the end |
| PlayerHelpers.FormatTimeLayout | src/app/play/playerHelpers.tsx:4-20 | Below an hour the text is padded minutes and seconds; from an hour on it is padded hours, minutes and seconds, joined by `:` |
| PlayerHelpers.FormatTimeFields | src/app/play/playerHelpers.tsx:4-20 | Each piece is digits; minute and second fields are below 60 and read back as the right fields |
| PlayerHelpers.FormatTimeRoundTrip | src/app/play/playerHelpers.tsx:4-20 | Parsing the clock text gives back the number of seconds |
| PlayerHelpers.AdFree | src/app/play/playerHelpers.tsx:26-31 | A line of the input appears in the result exactly when it does not contain the discontinuity tag |
| PlayerHelpers.AdFreeSingleton | src/app/play/playerHelpers.tsx:27-30 | One line is kept exactly when it has no tag |
| PlayerHelpers.AdFreeAppend | src/app/play/playerHelpers.tsx:26-31 | Filtering a concatenation is the concatenation of the filtered parts, so kept lines keep their order and repeats |
| PlayerHelpers.AdFreeOfClean | src/app/play/playerHelpers.tsx:26-31 | Lines without the tag are kept as they are |
| PlayerHelpers.AdFreeLines | src/app/play/playerHelpers.tsx:24-31 | For lines from a split, no kept line contains a line break or the tag |
| PlayerHelpers.FilterAdsIdempotent | src/app/play/playerHelpers.tsx:22-33 | Filtering twice equals filtering once |
| PlayerHelpers.TagFreeUnchanged | src/app/play/playerHelpers.tsx:22-33 | A playlist without the tag is returned unchanged |
| PlayerHelpers.FilterAdsFromM3U8 | src/app/play/playerHelpers.tsx:22-33 | The line loop computes the filter; empty input gives the empty text |
| UserSelection.EmptyCookieNameIsNoCurrentUser | src/app/admin/components/UserConfig.tsx:24-28 | With an empty cookie name an admin selects exactly the plain users; a non-empty name makes the admin's own row selectable |
| UserSelection.SelectableUsers | src/app/admin/components/UserConfig.tsx:27-29 | A row is selectable exactly when the rule allows it; a missing list selects nothing |
| UserSelection.Filter | src/app/admin/components/UserConfig.tsx:27-28 | The filter keeps exactly the rows the rule allows |
| UserSelection.FilterSingleton | src/app/admin/components/UserConfig.tsx:27-28 | One row is kept exactly when the rule allows it |
| UserSelection.FilterAppend | src/app/admin/components/UserConfig.tsx:27-29 | Filtering a concatenation is the concatenation of the filtered parts, which fixes the selectable rows, their order and their count |
| UserSelection.OwnerSelectsEveryone | src/app/admin/components/UserConfig.tsx:27-28 | The owner may select every row |
| UserSelection.NoRoleSelectsNobody | src/app/admin/components/UserConfig.tsx:27-28 | Without a role nothing is selectable |
| UserSelection.AdminSelectable | src/app/admin/components/UserConfig.tsx:27-28 | An admin selects plain users and their own row only |
| UserSelection.SizeOfDistinct | src/app/admin/components/UserConfig.tsx:64-69 | Distinct names form a set of that many names |
| UserSelection.AllSelectedComparesCounts | src/app/admin/components/UserConfig.tsx:30 | Only counts are compared: a selection of one unrelated name ticks the box for one selectable row |
| UserSelection.DuplicateNamesNeverAllSelected | src/app/admin/components/UserConfig.tsx:26-31 | With two rows both named `bob`, selecting every selectable name leaves the box unticked |
| UserSelection.UserTable.constructor | src/app/admin/components/UserConfig.tsx:22 | The selection starts empty |
| UserSelection.UserTable.HandleSelectUser | src/app/admin/components/UserConfig.tsx:56-62 | Ticking adds the name, unticking removes it, nothing else changes |
| UserSelection.UserTable.HandleSelectAllUsers | src/app/admin/components/UserConfig.tsx:64-69 | Ticking selects the selectable names, unticking clears; with distinct names the box then shows ticked |

## Left out

- Redis, Kvrocks and Upstash internals: the Upstash backend is opaque. Its replies are arbitrary values chosen by the verifier, and only which optional methods it has is modelled. The other server backends are not part of this model.
- `localstorage`: the browser-side store is not part of this model. On the server it yields a null backend, modelled as `NullStorage`.
- KV `list` pagination and cursors: a listing returns every matching key at once.
- CloudflareKv.KvNamespace.List: returns a set, so the order in which Workers KV lists keys is not modelled. The order of the names from `getAllUsers`, and so the order of the exported user list, is therefore left open; only its members and the absence of repeats are stated.
- Asynchrony, concurrent first calls and read-after-write behaviour of the remote store: methods run to completion one at a time.
- JSON parse and stringify: stored records and the admin config are opaque documents. A history key holding any value other than a term list reads as the empty history.
- PBKDF2, passphrase AES (`CryptoJS.AES`), gzip, `CryptoJS.lib.WordArray.random`, `Date` and `process.env`: these are parameters. The salt, the clock reading and the environment are inputs.
- Error messages and logging: only the kind of each failure is kept, not its text, and `console` output is not modelled.
- `Buffer` fallbacks in `encoding.ts`: the model takes the browser branch (`btoa`/`atob`). The Node fallback produces the same Base64 text.
- Encoding.Atob: accepts only canonical padded Base64. Browser `atob` also tolerates whitespace and missing padding.
- PlayerHelpers.FormatTime: takes natural numbers of seconds. Rounding of fractional input and negative input are not modelled.
- Export.BackupFileName: the year is a natural number. Years before 1000 are printed without padding, as the code does, and negative years are not modelled.
- `getRawStorageClient` is not exported by `db.ts`, so its successful lookup is an input. As imported, the route always takes the null branch (`Export.NoRawClientNoPasswords`).
- Upstash method results: a forwarding call against Upstash is stated only as success with an arbitrary value, or `BackendFailed`.
- `ensureVideoSource`, the favorite icon, `preferHelpers`, the other admin panels and the build scripts are not part of this model.
