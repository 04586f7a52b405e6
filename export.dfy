/**
 * The data-export endpoint of the admin API: an ordered series of checks,
 * then every user's collections are gathered, the owner's password is put
 * in, and the JSON document is gzip-compressed, base64-encoded and
 * AES-encrypted into a `moontv-backup-YYYYMMDD-HHMMSS.dat` download.
 *
 * The manager's answers (admin config, user list, per-user collections),
 * the request body, the clock, JSON serialisation, gzip and AES are inputs.
 */
module Export {
  import opened Wrappers
  import opened Strings
  import opened Bytes
  import Crypto
  import Base64
  import Encoding
  import Kv = CloudflareKv
  import Db

  /** The `password` member of the request body. */
  datatype PasswordField = Absent | NotString | Text(s: string)

  datatype AuthInfo = AuthInfo(username: Option<string>)

  /** `process.env`: storage type, `USERNAME`, `PASSWORD`. */
  datatype Env = Env(storageType: Option<string>, ownerName: Option<string>, ownerPassword: Option<string>)

  datatype ExportError =
    | LocalStorageUnsupported
    | NotLoggedIn
    | NotOwner
    | ConfigUnavailable
    | PasswordMissing
    | EncryptionFailed
    | Thrown(message: string)   // a rejected call, reported with its message

  function Status(e: ExportError): (code: nat)
    ensures code in {400, 401, 500}
    ensures code == 401 <==> e == NotLoggedIn || e == NotOwner
    ensures code == 400 <==> e == LocalStorageUnsupported || e == PasswordMissing
  {
    match e
    case LocalStorageUnsupported => 400
    case NotLoggedIn => 401
    case NotOwner => 401
    case ConfigUnavailable => 500
    case PasswordMissing => 400
    case EncryptionFailed => 500
    case Thrown(_) => 500
  }

  /** The first three checks pass: a shared backend and the logged-in owner. */
  predicate OwnerRequest(env: Env, auth: Option<AuthInfo>) {
    && Db.EffectiveStorageType(env.storageType) != "localstorage"
    && auth.Some? && auth.value.username.Some? && auth.value.username.value != ""
    && env.ownerName == auth.value.username
  }

  /** `!password || typeof password !== 'string'` is false. */
  predicate GoodPassword(body: Result<PasswordField, string>) {
    body.Success? && body.value.Text? && body.value.s != ""
  }

  /**
   * The checks of the endpoint in their order; on success, the encryption
   * password.  `config` is the answer of `getAdminConfig` and `body` the
   * parsed request body (a failure carries the thrown message).
   */
  function CheckExport(env: Env, auth: Option<AuthInfo>, config: Result<Option<Kv.Value>, string>,
                       body: Result<PasswordField, string>): (r: Result<string, ExportError>)
    ensures Db.EffectiveStorageType(env.storageType) == "localstorage" ==> r == Failure(LocalStorageUnsupported)
    ensures r.Success? <==>
      OwnerRequest(env, auth) && config.Success? && config.value.Some? && GoodPassword(body)
    ensures r.Success? ==> body == Success(Text(r.value)) && r.value != ""
  {
    if Db.EffectiveStorageType(env.storageType) == "localstorage" then Failure(LocalStorageUnsupported)
    else if auth.None? || auth.value.username.None? || auth.value.username.value == "" then Failure(NotLoggedIn)
    else if env.ownerName != auth.value.username then Failure(NotOwner)
    else match config
      case Failure(m) => Failure(Thrown(m))
      case Success(None) => Failure(ConfigUnavailable)
      case Success(Some(_)) =>
        match body
        case Failure(m) => Failure(Thrown(m))
        case Success(Text(p)) => if p == "" then Failure(PasswordMissing) else Success(p)
        case Success(_) => Failure(PasswordMissing)
  }

  /**
   * Each check is reached only when the earlier ones pass, and each gives
   * its own answer: 400 for local storage, 401 for no user or a user other
   * than the owner, the thrown message or 500 for the admin config, the
   * thrown message or 400 for the body, and otherwise the password.
   */
  lemma ChecksInOrder(env: Env, auth: Option<AuthInfo>, config: Result<Option<Kv.Value>, string>,
                      body: Result<PasswordField, string>)
    ensures var r := CheckExport(env, auth, config, body);
      Db.EffectiveStorageType(env.storageType) != "localstorage" ==>
        && (auth.None? || auth.value.username.None? || auth.value.username.value == "" ==> r == Failure(NotLoggedIn))
        && ((auth.Some? && auth.value.username.Some? && auth.value.username.value != ""
             && env.ownerName != auth.value.username) ==> r == Failure(NotOwner))
    ensures var r := CheckExport(env, auth, config, body);
      OwnerRequest(env, auth) ==>
        && (config.Failure? ==> r == Failure(Thrown(config.error)))
        && (config == Success(None) ==> r == Failure(ConfigUnavailable))
        && (config.Success? && config.value.Some? ==>
          && (body.Failure? ==> r == Failure(Thrown(body.error)))
          && (body.Success? && !GoodPassword(body) ==> r == Failure(PasswordMissing))
          && (GoodPassword(body) ==> r == Success(body.value.s)))
  {
  }

  /** Once the earlier checks pass, a password field is accepted iff it is a non-empty string. */
  lemma PasswordAccepted(env: Env, auth: Option<AuthInfo>, config: Result<Option<Kv.Value>, string>, f: PasswordField)
    requires OwnerRequest(env, auth) && config.Success? && config.value.Some?
    ensures CheckExport(env, auth, config, Success(f)).Success? <==> f.Text? && f.s != ""
  {
  }

  /** `Array.from(new Set(users))`: the first occurrence of each name, in order. */
  function Dedupe(s: seq<string>): (r: seq<string>)
    ensures Distinct(r)
    ensures forall x :: x in r <==> x in s
    ensures |r| <= |s|
  {
    if s == [] then []
    else
      var d := Dedupe(s[..|s| - 1]);
      var x := s[|s| - 1];
      assert forall y :: y in s <==> y in s[..|s| - 1] || y == x by {
        assert s == s[..|s| - 1] + [x];
      }
      if x in d then d else d + [x]
  }

  /** A list without repeats is left as it is. */
  lemma {:induction false} DedupeDistinct(s: seq<string>)
    requires Distinct(s)
    ensures Dedupe(s) == s
    decreases |s|
  {
    if s != [] {
      var init := s[..|s| - 1];
      DedupeDistinct(init);
      assert s[|s| - 1] !in init by {
        forall i | 0 <= i < |init| ensures init[i] != s[|s| - 1] {
          assert init[i] == s[i];
        }
      }
      assert init + [s[|s| - 1]] == s;
    }
  }

  /** The position of the first occurrence of `x` in `s`. */
  function FirstIndex(s: seq<string>, x: string): (i: nat)
    requires x in s
    ensures i < |s| && s[i] == x && x !in s[..i]
  {
    if s[0] == x then 0
    else
      var j := FirstIndex(s[1..], x);
      assert s[..j + 1] == [s[0]] + s[1..][..j];
      j + 1
  }

  /** Only one position is a first occurrence. */
  lemma FirstIndexUnique(s: seq<string>, x: string, k: nat)
    requires k < |s| && s[k] == x && x !in s[..k]
    ensures FirstIndex(s, x) == k
  {
  }

  /**
   * `Array.from(new Set(..))` keeps insertion order: the names come in the
   * order of their first occurrences in the input.
   */
  lemma {:induction false} DedupeKeepsFirstOccurrences(s: seq<string>)
    ensures forall i, j :: 0 <= i < j < |Dedupe(s)| ==> FirstIndex(s, Dedupe(s)[i]) < FirstIndex(s, Dedupe(s)[j])
    decreases |s|
  {
    if s != [] {
      var init, x := s[..|s| - 1], s[|s| - 1];
      var d := Dedupe(init);
      DedupeKeepsFirstOccurrences(init);
      assert s == init + [x];
      forall y | y in init ensures FirstIndex(s, y) == FirstIndex(init, y) {
        var k := FirstIndex(init, y);
        assert s[..k] == init[..k];
        FirstIndexUnique(s, y, k);
      }
      if x !in d {
        assert x !in s[..|s| - 1];
        FirstIndexUnique(s, x, |s| - 1);
      }
    }
  }

  /** The exported names: the listed users, then the owner, without repeats. */
  function ExportedUsers(listed: seq<string>, owner: string): seq<string> {
    Dedupe(listed + [owner])
  }

  lemma ExportedUsersProperties(listed: seq<string>, owner: string)
    ensures owner in ExportedUsers(listed, owner)
    ensures Distinct(ExportedUsers(listed, owner))
    ensures forall x :: x in ExportedUsers(listed, owner) <==> x in listed || x == owner
    ensures Distinct(listed) && owner in listed ==> ExportedUsers(listed, owner) == listed
    ensures Distinct(listed) && owner !in listed ==> ExportedUsers(listed, owner) == listed + [owner]
  {
    var s := listed + [owner];
    assert owner in s;
    assert forall x :: x in s <==> x in listed || x == owner;
    if Distinct(listed) {
      DedupeDistinct(listed);
      assert s[..|s| - 1] == listed;
      if owner !in listed {
        DedupeDistinct(s);
      }
    }
  }

  /** A raw client lookup: the stored value (or nothing), or a thrown message. */
  type RawGet = string -> Result<Option<string>, string>

  /** What the raw storage client exposes: its own `get`, or a `client.get`. */
  datatype RawClient = RawClient(get: Option<RawGet>, client: Option<RawGet>)

  function PasswordKey(user: string): string { "u:" + user + ":pwd" }

  /** The `get` that `getUserPassword` uses: the client's own, else the nested client's. */
  function ClientGet(rc: RawClient): Option<RawGet> {
    if rc.get.Some? then rc.get else rc.client
  }

  /**
   * `getUserPassword`: the value at `u:<name>:pwd` read through the raw
   * client; null when there is no client (`raw` is None), no `get`, or the
   * lookup throws.
   */
  function GetUserPassword(user: string, raw: Option<RawClient>): Option<string> {
    if raw.None? then None
    else match ClientGet(raw.value)
      case None => None
      case Some(get) =>
        match get(PasswordKey(user))
        case Failure(_) => None
        case Success(v) => v
  }

  /** Different users have different password keys. */
  lemma PasswordKeyInjective(u1: string, u2: string)
    requires PasswordKey(u1) == PasswordKey(u2)
    ensures u1 == u2
  {
    assert u1 == PasswordKey(u1)[2..|PasswordKey(u1)| - 4];
    assert u2 == PasswordKey(u2)[2..|PasswordKey(u2)| - 4];
  }

  /**
   * A user's password depends only on what the client answers for that
   * user's own key, whether the client has its own `get` or a nested one,
   * and it is null when that lookup throws.
   */
  lemma GetUserPasswordReadsOwnKey(user: string, g1: RawGet, g2: RawGet, nested: Option<RawGet>)
    requires g1(PasswordKey(user)) == g2(PasswordKey(user))
    ensures GetUserPassword(user, Some(RawClient(Some(g1), nested))) == GetUserPassword(user, Some(RawClient(None, Some(g2))))
    ensures g1(PasswordKey(user)).Failure? ==> GetUserPassword(user, Some(RawClient(Some(g1), nested))) == None
    ensures g1(PasswordKey(user)).Success? ==> GetUserPassword(user, Some(RawClient(Some(g1), nested))) == g1(PasswordKey(user)).value
  {
  }

  /** The four collections the manager returns for one user. */
  datatype UserCollections = UserCollections(
    playRecords: map<string, Kv.Value>, favorites: map<string, Kv.Value>,
    searchHistory: seq<string>, skipConfigs: map<string, Kv.Value>)

  datatype UserExport = UserExport(collections: UserCollections, password: Option<string>)

  datatype ExportData = ExportData(timestamp: string, serverVersion: string, adminConfig: Kv.Value, userData: map<string, UserExport>)

  /** The manager's answers for one user, by name (a failure carries the thrown message). */
  type Collector = string -> Result<UserCollections, string>

  /**
   * The `for` loop over the names: one entry per name, or the first thrown
   * message in list order.
   */
  function CollectAll(users: seq<string>, collect: Collector, raw: Option<RawClient>): (r: Result<map<string, UserExport>, string>)
    ensures r.Success? <==> forall i :: 0 <= i < |users| ==> collect(users[i]).Success?
    ensures r.Success? ==> r.value.Keys == set u | u in users
    ensures r.Success? ==> forall u :: u in users ==> r.value[u] == UserExport(collect(u).value, GetUserPassword(u, raw))
    ensures r.Failure? ==> exists i ::
      && 0 <= i < |users|
      && collect(users[i]) == Failure(r.error)
      && forall j :: 0 <= j < i ==> collect(users[j]).Success?
    decreases |users|
  {
    if users == [] then Success(map[])
    else
      var init, u := users[..|users| - 1], users[|users| - 1];
      assert forall x :: x in users <==> x in init || x == u by {
        assert users == init + [u];
      }
      match CollectAll(init, collect, raw)
      case Failure(m) =>
        assert forall j :: 0 <= j < |init| ==> init[j] == users[j];
        Failure(m)
      case Success(data) =>
        match collect(u)
        case Failure(m) =>
          assert forall j :: 0 <= j < |init| ==> init[j] == users[j];
          Failure(m)
        case Success(c) => Success(data[u := UserExport(c, GetUserPassword(u, raw))])
  }

  /** Failing on a prefix of the names fails the whole loop the same way. */
  lemma CollectAllFailurePersists(users: seq<string>, i: nat, collect: Collector, raw: Option<RawClient>)
    requires i <= |users| && CollectAll(users[..i], collect, raw).Failure?
    ensures CollectAll(users, collect, raw) == CollectAll(users[..i], collect, raw)
  {
    var prefix := users[..i];
    var e := CollectAll(prefix, collect, raw).error;
    var k :| 0 <= k < i && collect(prefix[k]) == Failure(e) && forall j :: 0 <= j < k ==> collect(prefix[j]).Success?;
    assert collect(users[k]) == Failure(e);
    assert forall j :: 0 <= j < k ==> collect(users[j]).Success? by {
      forall j | 0 <= j < k ensures collect(users[j]).Success? {
        assert prefix[j] == users[j];
      }
    }
    var r := CollectAll(users, collect, raw);
    var k2 :| 0 <= k2 < |users| && collect(users[k2]) == Failure(r.error) && forall j :: 0 <= j < k2 ==> collect(users[j]).Success?;
    assert k2 == k;
  }

  /** `userData[USERNAME].password = PASSWORD`. */
  function WithOwnerPassword(userData: map<string, UserExport>, owner: string, password: Option<string>): (r: map<string, UserExport>)
    requires owner in userData
    ensures r.Keys == userData.Keys
    ensures r[owner] == UserExport(userData[owner].collections, password)
    ensures forall u :: u in userData && u != owner ==> r[u] == userData[u]
  {
    userData[owner := userData[owner].(password := password)]
  }

  /** A broken-down local time as `Date` reports it; `month` counts from 0. */
  datatype LocalTime = LocalTime(year: nat, month: nat, day: nat, hours: nat, minutes: nat, seconds: nat)

  predicate ValidTime(t: LocalTime) {
    t.month < 12 && 1 <= t.day <= 31 && t.hours < 24 && t.minutes < 60 && t.seconds < 60
  }

  const BackupPrefix: string := "moontv-backup-"
  const BackupSuffix: string := ".dat"

  /** `moontv-backup-${YYYY}${MM}${DD}-${hh}${mm}${ss}.dat`, month made 1-based, other fields padded to 2 digits. */
  function BackupFileName(t: LocalTime): (name: string)
    ensures StartsWith(name, BackupPrefix)
    ensures |name| >= |BackupPrefix| + |BackupSuffix| && name[|name| - |BackupSuffix|..] == BackupSuffix
  {
    var name := BackupPrefix + Stamp(t) + BackupSuffix;
    assert name[..|BackupPrefix|] == BackupPrefix;
    assert name[|name| - |BackupSuffix|..] == BackupSuffix;
    name
  }

  /** `YYYYMMDD` with the month made 1-based. */
  function DatePart(t: LocalTime): string {
    NatToString(t.year) + Pad2(t.month + 1) + Pad2(t.day)
  }

  /** `HHMMSS`. */
  function TimePart(t: LocalTime): string {
    Pad2(t.hours) + Pad2(t.minutes) + Pad2(t.seconds)
  }

  /** The part between the prefix and the suffix. */
  function Stamp(t: LocalTime): string {
    DatePart(t) + "-" + TimePart(t)
  }

  lemma Pieces(a: string, b: string, c: string)
    ensures var s := a + b + c;
      && s[..|a|] == a
      && s[|a|..|a| + |b|] == b
      && s[|a| + |b|..] == c
  {
  }

  /** The date reads back as year, 1-based month and day. */
  lemma DateFields(t: LocalTime)
    requires ValidTime(t)
    ensures var d := DatePart(t);
      var y := |NatToString(t.year)|;
      && |d| == y + 4
      && (forall i :: 0 <= i < y ==> IsDigit(d[i]))
      && ParseDecimal(d[..y]) == t.year
      && ParseDecimal(d[y..y + 2]) == t.month + 1
      && ParseDecimal(d[y + 2..]) == t.day
  {
    Pieces(NatToString(t.year), Pad2(t.month + 1), Pad2(t.day));
    ParseNatToString(t.year);
    ParsePad2(t.month + 1);
    ParsePad2(t.day);
  }

  /** The time reads back as hours, minutes and seconds, two digits each. */
  lemma TimeFields(t: LocalTime)
    requires ValidTime(t)
    ensures var h := TimePart(t);
      && |h| == 6
      && ParseDecimal(h[..2]) == t.hours
      && ParseDecimal(h[2..4]) == t.minutes
      && ParseDecimal(h[4..]) == t.seconds
  {
    Pieces(Pad2(t.hours), Pad2(t.minutes), Pad2(t.seconds));
    ParsePad2(t.hours);
    ParsePad2(t.minutes);
    ParsePad2(t.seconds);
  }

  /** The stamp is the date, a `-` and the time; its length follows. */
  lemma StampFields(t: LocalTime)
    requires ValidTime(t)
    ensures var st := Stamp(t);
      var y := |NatToString(t.year)|;
      && |st| == y + 11
      && st[..y + 4] == DatePart(t)
      && st[y + 4] == '-'
      && st[y + 5..] == TimePart(t)
  {
    DateFields(t);
    TimeFields(t);
    Pieces(DatePart(t), "-", TimePart(t));
  }

  /** For a valid time the name is the prefix, the stamp and the suffix, so every field reads back. */
  lemma BackupFileNameFields(t: LocalTime)
    requires ValidTime(t)
    ensures var name := BackupFileName(t);
      && |name| == |BackupPrefix| + |Stamp(t)| + |BackupSuffix|
      && name[|BackupPrefix|..|BackupPrefix| + |Stamp(t)|] == Stamp(t)
  {
    Pieces(BackupPrefix, Stamp(t), BackupSuffix);
    assert BackupFileName(t) == BackupPrefix + Stamp(t) + BackupSuffix;
  }

  /** JSON serialisation, gzip and AES encryption. */
  datatype Libraries = Libraries(serialize: ExportData -> string, gzip: string -> seq<byte>, aesEncrypt: Crypto.Cipher)

  /** The manager's answers the endpoint reads. */
  datatype Facade = Facade(
    config: Result<Option<Kv.Value>, string>,
    allUsers: Result<seq<string>, string>,
    collect: Collector,
    raw: Option<RawClient>)

  datatype Response =
    | Refused(error: ExportError)
    | Download(body: string, fileName: string, contentLength: nat)

  /** The document to export once the checks pass, or the first thrown message. */
  function Payload(owner: string, ownerPassword: Option<string>, config: Kv.Value, facade: Facade,
                   timestamp: string, version: string): (r: Result<ExportData, string>)
    ensures r.Success? <==>
      facade.allUsers.Success? && forall u :: u in ExportedUsers(facade.allUsers.value, owner) ==> facade.collect(u).Success?
    ensures facade.allUsers.Failure? ==> r == Failure(facade.allUsers.error)
    ensures facade.allUsers.Success? && r.Failure? ==>
      var users := ExportedUsers(facade.allUsers.value, owner);
      exists i ::
        && 0 <= i < |users|
        && facade.collect(users[i]) == Failure(r.error)
        && forall j :: 0 <= j < i ==> facade.collect(users[j]).Success?
    ensures r.Success? ==> r.value.userData.Keys == set u | u in ExportedUsers(facade.allUsers.value, owner)
    ensures r.Success? ==> r.value.userData[owner].password == ownerPassword && r.value.adminConfig == config
  {
    match facade.allUsers
    case Failure(m) => Failure(m)
    case Success(listed) =>
      var users := ExportedUsers(listed, owner);
      ExportedUsersProperties(listed, owner);
      match CollectAll(users, facade.collect, facade.raw)
      case Failure(m) => Failure(m)
      case Success(userData) =>
        Success(ExportData(timestamp, version, config, WithOwnerPassword(userData, owner, ownerPassword)))
  }

  /** Every exported user other than the owner carries the manager's collections and the raw-client password. */
  lemma PayloadEntries(owner: string, ownerPassword: Option<string>, config: Kv.Value, facade: Facade,
                       timestamp: string, version: string, u: string)
    requires Payload(owner, ownerPassword, config, facade, timestamp, version).Success?
    requires u in Payload(owner, ownerPassword, config, facade, timestamp, version).value.userData
    ensures facade.collect(u).Success?
    ensures var e := Payload(owner, ownerPassword, config, facade, timestamp, version).value.userData[u];
      && e.collections == facade.collect(u).value
      && e.password == (if u == owner then ownerPassword else GetUserPassword(u, facade.raw))
  {
    var users := ExportedUsers(facade.allUsers.value, owner);
    ExportedUsersProperties(facade.allUsers.value, owner);
    var i :| 0 <= i < |users| && users[i] == u;
  }

  /** Without a raw client every exported password but the owner's is null. */
  lemma NoRawClientNoPasswords(owner: string, ownerPassword: Option<string>, config: Kv.Value, facade: Facade,
                               timestamp: string, version: string, u: string)
    requires facade.raw.None?
    requires Payload(owner, ownerPassword, config, facade, timestamp, version).Success?
    requires u in Payload(owner, ownerPassword, config, facade, timestamp, version).value.userData && u != owner
    ensures Payload(owner, ownerPassword, config, facade, timestamp, version).value.userData[u].password == None
  {
    PayloadEntries(owner, ownerPassword, config, facade, timestamp, version, u);
  }

  /** The base64 text that is encrypted. */
  function Plaintext(data: ExportData, libs: Libraries): string {
    Base64.Encode(libs.gzip(libs.serialize(data)))
  }

  /** The response of the endpoint `POST`. */
  function ExportResponse(env: Env, auth: Option<AuthInfo>, body: Result<PasswordField, string>, facade: Facade,
                          libs: Libraries, now: LocalTime, timestamp: string, version: string): (resp: Response)
    ensures resp.Download? ==> CheckExport(env, auth, facade.config, body).Success?
    ensures resp.Download? ==> resp.fileName == BackupFileName(now) && resp.contentLength == |resp.body|
    ensures CheckExport(env, auth, facade.config, body).Failure? ==> resp == Refused(CheckExport(env, auth, facade.config, body).error)
    ensures CheckExport(env, auth, facade.config, body).Success? ==>
      var password := CheckExport(env, auth, facade.config, body).value;
      var data := Payload(env.ownerName.value, env.ownerPassword, facade.config.value.value, facade, timestamp, version);
      && (data.Failure? ==> resp == Refused(Thrown(data.error)))
      && (data.Success? && libs.aesEncrypt(Plaintext(data.value, libs), password).None? ==> resp == Refused(EncryptionFailed))
      && (data.Success? && libs.aesEncrypt(Plaintext(data.value, libs), password).Some? ==>
            var c := libs.aesEncrypt(Plaintext(data.value, libs), password).value;
            resp == Download(c, BackupFileName(now), |c|))
  {
    match CheckExport(env, auth, facade.config, body)
    case Failure(e) => Refused(e)
    case Success(password) =>
      match Payload(env.ownerName.value, env.ownerPassword, facade.config.value.value, facade, timestamp, version)
      case Failure(m) => Refused(Thrown(m))
      case Success(data) =>
        match Crypto.Encrypt(Plaintext(data, libs), password, libs.aesEncrypt)
        case Failure(_) => Refused(EncryptionFailed)
        case Success(artifact) => Download(artifact, BackupFileName(now), |artifact|)
  }

  /**
   * An export by the owner, with a readable config, a non-empty password,
   * every read succeeding and the cipher answering, is always downloaded,
   * under the backup file name.
   */
  lemma ExportSucceeds(env: Env, auth: Option<AuthInfo>, body: Result<PasswordField, string>, facade: Facade,
                       libs: Libraries, now: LocalTime, timestamp: string, version: string)
    requires OwnerRequest(env, auth) && facade.config.Success? && facade.config.value.Some? && GoodPassword(body)
    requires facade.allUsers.Success?
    requires forall u :: u in ExportedUsers(facade.allUsers.value, env.ownerName.value) ==> facade.collect(u).Success?
    requires forall m, p :: libs.aesEncrypt(m, p).Some?
    ensures ExportResponse(env, auth, body, facade, libs, now, timestamp, version).Download?
    ensures ExportResponse(env, auth, body, facade, libs, now, timestamp, version).fileName == BackupFileName(now)
  {
    var data := Payload(env.ownerName.value, env.ownerPassword, facade.config.value.value, facade, timestamp, version);
    assert data.Success?;
    assert libs.aesEncrypt(Plaintext(data.value, libs), body.value.s).Some?;
  }

  /**
   * Given that AES decryption inverts encryption and gzip never yields an
   * empty output, the downloaded artifact decrypts with the same password
   * to base64 text that decodes to the compressed JSON of the payload.
   */
  lemma ArtifactRoundTrip(env: Env, auth: Option<AuthInfo>, body: Result<PasswordField, string>, facade: Facade,
                          libs: Libraries, now: LocalTime, timestamp: string, version: string, aesDecrypt: Crypto.Cipher)
    requires forall m, p :: libs.aesEncrypt(m, p).Some? ==> aesDecrypt(libs.aesEncrypt(m, p).value, p) == Some(m)
    requires forall d :: |libs.gzip(libs.serialize(d))| > 0
    requires ExportResponse(env, auth, body, facade, libs, now, timestamp, version).Download?
    ensures var password := CheckExport(env, auth, facade.config, body).value;
      var data := Payload(env.ownerName.value, env.ownerPassword, facade.config.value.value, facade, timestamp, version).value;
      var artifact := ExportResponse(env, auth, body, facade, libs, now, timestamp, version).body;
      && Crypto.Decrypt(artifact, password, aesDecrypt) == Success(Plaintext(data, libs))
      && Base64.Decode(Plaintext(data, libs)) == Some(libs.gzip(libs.serialize(data)))
  {
    var password := CheckExport(env, auth, facade.config, body).value;
    var data := Payload(env.ownerName.value, env.ownerPassword, facade.config.value.value, facade, timestamp, version).value;
    var text := Plaintext(data, libs);
    var compressed := libs.gzip(libs.serialize(data));
    Base64.DecodeEncode(compressed);
    assert |text| >= |compressed| > 0;
    Crypto.EncryptDecrypt(text, password, libs.aesEncrypt, aesDecrypt);
  }

  /** The `for` loop that fills `userData`, one name after another. */
  method CollectUserData(users: seq<string>, collect: Collector, raw: Option<RawClient>) returns (r: Result<map<string, UserExport>, string>)
    ensures r == CollectAll(users, collect, raw)
  {
    var userData: map<string, UserExport> := map[];
    for i := 0 to |users|
      invariant CollectAll(users[..i], collect, raw) == Success(userData)
    {
      assert users[..i + 1][..i] == users[..i];
      var collections := collect(users[i]);
      if collections.Failure? {
        CollectAllFailurePersists(users, i + 1, collect, raw);
        return Failure(collections.error);
      }
      var password := GetUserPassword(users[i], raw);
      userData := userData[users[i] := UserExport(collections.value, password)];
    }
    assert users[..|users|] == users;
    return Success(userData);
  }

  /** JSON, gzip into a byte array, base64 over that array, then AES. */
  method EncryptPayload(data: ExportData, password: string, libs: Libraries) returns (r: Result<string, Crypto.CryptoError>)
    ensures r == Crypto.Encrypt(Plaintext(data, libs), password, libs.aesEncrypt)
  {
    var json := libs.serialize(data);
    var compressed := libs.gzip(json);
    var bytes := new byte[|compressed|](k requires 0 <= k < |compressed| => compressed[k]);
    assert bytes[..] == compressed;
    var base64Compressed := Encoding.Uint8ArrayToBase64(bytes);
    r := Crypto.Encrypt(base64Compressed, password, libs.aesEncrypt);
  }

  /** The endpoint `POST`, step by step as the route runs it. */
  method Post(env: Env, auth: Option<AuthInfo>, body: Result<PasswordField, string>, facade: Facade,
              libs: Libraries, now: LocalTime, timestamp: string, version: string) returns (resp: Response)
    ensures resp == ExportResponse(env, auth, body, facade, libs, now, timestamp, version)
  {
    var check := CheckExport(env, auth, facade.config, body);
    if check.Failure? {
      return Refused(check.error);
    }
    var password := check.value;
    var owner := env.ownerName.value;
    var config := facade.config.value.value;
    if facade.allUsers.Failure? {
      return Refused(Thrown(facade.allUsers.error));
    }
    var allUsers := facade.allUsers.value;
    allUsers := allUsers + [owner];
    allUsers := Dedupe(allUsers);
    ExportedUsersProperties(facade.allUsers.value, owner);
    var collected := CollectUserData(allUsers, facade.collect, facade.raw);
    if collected.Failure? {
      return Refused(Thrown(collected.error));
    }
    var userData := WithOwnerPassword(collected.value, owner, env.ownerPassword);
    var data := ExportData(timestamp, version, config, userData);
    var encrypted := EncryptPayload(data, password, libs);
    if encrypted.Failure? {
      return Refused(EncryptionFailed);
    }
    resp := Download(encrypted.value, BackupFileName(now), |encrypted.value|);
  }
}
