/**
 * Password hashing (`salt:hash` with PBKDF2) and the AES wrapper
 * `SimpleCrypto`.  The primitives of the crypto library are parameters:
 * a key-derivation function, and AES encryption and decryption that either
 * produce a string or throw (`None`).
 */
module Crypto {
  import opened Wrappers
  import opened Bytes
  import opened Strings

  /** 16 random bytes (`WordArray.random(128 / 8)`). */
  type Salt = s: seq<byte> | |s| == 16 witness seq(16, _ => 0)

  /** A 256-bit derived key (`keySize: 256 / 32` words). */
  type DerivedKey = k: seq<byte> | |k| == 32 witness seq(32, _ => 0)

  /** PBKDF2(password, salt) with 1000 iterations, as the library computes it. */
  type Kdf = (string, string) -> DerivedKey

  /** AES encryption or decryption with a passphrase; `None` when the library throws. */
  type Cipher = (string, string) -> Option<string>

  datatype CryptoError = EncryptionFailed | DecryptionFailed

  predicate IsHexChar(c: char) {
    ('0' <= c <= '9') || ('a' <= c <= 'f')
  }

  function HexDigit(v: nat): (c: char)
    requires v < 16
    ensures IsHexChar(c)
  {
    if v < 10 then ('0' as int + v) as char else ('a' as int + (v - 10)) as char
  }

  lemma HexDigitInjective(v: nat, w: nat)
    requires v < 16 && w < 16 && HexDigit(v) == HexDigit(w)
    ensures v == w
  {
  }

  /** `WordArray.toString()`: two lower-case hex digits per byte. */
  function Hex(b: seq<byte>): (h: string)
    ensures |h| == 2 * |b|
    ensures forall i :: 0 <= i < |h| ==> IsHexChar(h[i])
    decreases |b|
  {
    if b == [] then "" else [HexDigit(b[0] / 16), HexDigit(b[0] % 16)] + Hex(b[1..])
  }

  lemma {:induction false} HexInjective(a: seq<byte>, b: seq<byte>)
    requires Hex(a) == Hex(b)
    ensures a == b
    decreases |a|
  {
    if a != [] {
      var ha, hb := Hex(a), Hex(b);
      assert ha[0] == hb[0] && ha[1] == hb[1];
      HexDigitInjective(a[0] / 16, b[0] / 16);
      HexDigitInjective(a[0] % 16, b[0] % 16);
      assert ha[2..] == Hex(a[1..]) && hb[2..] == Hex(b[1..]);
      HexInjective(a[1..], b[1..]);
      assert a == [a[0]] + a[1..] && b == [b[0]] + b[1..];
    }
  }

  lemma NoColonInHex(b: seq<byte>)
    ensures ':' !in Hex(b)
  {
  }

  /** `hashPassword`: the hex salt, a colon, and the hex PBKDF2 key derived with that salt. */
  function HashPassword(password: string, salt: Salt, kdf: Kdf): (stored: string)
    ensures |stored| == 97 && stored[32] == ':'
    ensures Split(stored, ':') == [Hex(salt), Hex(kdf(password, Hex(salt)))]
  {
    var s, h := Hex(salt), Hex(kdf(password, Hex(salt)));
    NoColonInHex(salt);
    NoColonInHex(kdf(password, s));
    SplitJoin([s, h], ':');
    assert Join([s, h], ':') == s + ":" + h;
    s + ":" + h
  }

  /**
   * `verifyPassword`: destructure `storedHash.split(':')` into its first two
   * pieces; a missing or empty piece gives `false`, otherwise the second piece
   * must equal the key derived from the password and the first piece.
   */
  function VerifyPassword(password: string, storedHash: string, kdf: Kdf): (ok: bool)
    ensures ':' !in storedHash ==> !ok
    ensures ok <==>
      var p := Split(storedHash, ':');
      && |p| >= 2 && p[0] != "" && p[1] != ""
      && p[1] == Hex(kdf(password, p[0]))
  {
    var pieces := Split(storedHash, ':');
    if ':' !in storedHash then SplitNoSeparator(storedHash, ':'); false
    else if |pieces| < 2 || pieces[0] == "" || pieces[1] == "" then false
    else pieces[1] == Hex(kdf(password, pieces[0]))
  }

  /** A hash made by `HashPassword` verifies with the same password. */
  lemma VerifyHashedPassword(password: string, salt: Salt, kdf: Kdf)
    ensures VerifyPassword(password, HashPassword(password, salt, kdf), kdf)
  {
    var stored := HashPassword(password, salt, kdf);
    assert stored[32] == ':';
  }

  /**
   * Any non-empty, colon-free salt text followed by the key derived with it
   * verifies, not only the 32-digit salts `HashPassword` makes.
   */
  lemma VerifyAnySalt(password: string, salt: string, kdf: Kdf)
    requires salt != "" && ':' !in salt
    ensures VerifyPassword(password, salt + ":" + Hex(kdf(password, salt)), kdf)
  {
    var h := Hex(kdf(password, salt));
    NoColonInHex(kdf(password, salt));
    SplitNoSeparator(h, ':');
    SplitAfterPiece(salt, ':', h);
    assert salt + ":" + h == salt + [':'] + h;
  }

  /**
   * Another password verifies against the hash exactly when the library
   * derives the same key from it with that salt.
   */
  lemma VerifyOtherPassword(other: string, password: string, salt: Salt, kdf: Kdf)
    ensures VerifyPassword(other, HashPassword(password, salt, kdf), kdf)
        <==> kdf(other, Hex(salt)) == kdf(password, Hex(salt))
  {
    var stored := HashPassword(password, salt, kdf);
    assert stored[32] == ':';
    if VerifyPassword(other, stored, kdf) {
      HexInjective(kdf(other, Hex(salt)), kdf(password, Hex(salt)));
    }
  }

  /** Pieces after the second colon are ignored by the destructuring. */
  lemma VerifyIgnoresExtraPieces(password: string, salt: string, hash: string, extra: string, kdf: Kdf)
    requires ':' !in salt && ':' !in hash
    ensures VerifyPassword(password, salt + ":" + hash + ":" + extra, kdf)
         == VerifyPassword(password, salt + ":" + hash, kdf)
  {
    SplitAfterPiece(salt, ':', hash + ":" + extra);
    assert salt + ":" + hash + ":" + extra == salt + [':'] + (hash + ":" + extra);
    SplitAfterPiece(hash, ':', extra);
    assert hash + ":" + extra == hash + [':'] + extra;
    SplitAfterPiece(salt, ':', hash);
    assert salt + ":" + hash == salt + [':'] + hash;
    SplitNoSeparator(hash, ':');
    assert ':' in salt + ":" + hash + ":" + extra by {
      assert (salt + ":" + hash + ":" + extra)[|salt|] == ':';
    }
    assert ':' in salt + ":" + hash by {
      assert (salt + ":" + hash)[|salt|] == ':';
    }
  }

  /** `SimpleCrypto.encrypt`: a library exception becomes the encryption error. */
  function Encrypt(data: string, password: string, aesEncrypt: Cipher): Result<string, CryptoError> {
    match aesEncrypt(data, password)
    case None => Failure(EncryptionFailed)
    case Some(c) => Success(c)
  }

  /**
   * `SimpleCrypto.decrypt`: a library exception and an empty plaintext (what
   * a wrong password usually yields) both become the same decryption error.
   */
  function Decrypt(ciphertext: string, password: string, aesDecrypt: Cipher): (r: Result<string, CryptoError>)
    ensures r.Success? <==> aesDecrypt(ciphertext, password).Some? && aesDecrypt(ciphertext, password).value != ""
    ensures r.Success? ==> r.value == aesDecrypt(ciphertext, password).value && r.value != ""
    ensures r.Failure? ==> r.error == DecryptionFailed
  {
    match aesDecrypt(ciphertext, password)
    case None => Failure(DecryptionFailed)
    case Some(plain) => if plain == "" then Failure(DecryptionFailed) else Success(plain)
  }

  /** `SimpleCrypto.canDecrypt`: decryption succeeded and gave a non-empty string; never throws. */
  function CanDecrypt(ciphertext: string, password: string, aesDecrypt: Cipher): (ok: bool)
    ensures ok <==> aesDecrypt(ciphertext, password).Some? && aesDecrypt(ciphertext, password).value != ""
  {
    match Decrypt(ciphertext, password, aesDecrypt)
    case Failure(_) => false
    case Success(plain) => |plain| > 0
  }

  /** The length test in `canDecrypt` is redundant: it agrees with decryption success. */
  lemma CanDecryptIffDecrypts(ciphertext: string, password: string, aesDecrypt: Cipher)
    ensures CanDecrypt(ciphertext, password, aesDecrypt) <==> Decrypt(ciphertext, password, aesDecrypt).Success?
  {
  }

  /**
   * Given the library's round trip, a non-empty plaintext comes back; the
   * empty plaintext never does, even with the right password.
   */
  lemma EncryptDecrypt(data: string, password: string, aesEncrypt: Cipher, aesDecrypt: Cipher)
    requires aesEncrypt(data, password).Some?
    requires aesDecrypt(aesEncrypt(data, password).value, password) == Some(data)
    ensures Decrypt(Encrypt(data, password, aesEncrypt).value, password, aesDecrypt)
         == if data == "" then Failure(DecryptionFailed) else Success(data)
  {
  }
}
