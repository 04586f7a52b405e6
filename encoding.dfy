/**
 * The Edge-runtime helpers between base64 text and byte arrays: each copies
 * bytes to and from a Latin-1 "binary string" one position at a time and lets
 * `atob` / `btoa` do the base64 step.
 */
module Encoding {
  import opened Wrappers
  import opened Bytes
  import Base64

  /** `btoa`: refuses (throws InvalidCharacterError) a character above U+00FF. */
  function Btoa(binary: string): (r: Option<string>)
    ensures r.Some? <==> IsLatin1(binary)
  {
    if IsLatin1(binary) then Some(Base64.Encode(CharCodes(binary))) else None
  }

  /** `atob`: the decoded bytes as a Latin-1 string, or a thrown error on malformed input. */
  function Atob(text: string): (r: Option<string>)
    ensures r.Some? <==> Base64.Decode(text).Some?
    ensures r.Some? ==> IsLatin1(r.value) && CharCodes(r.value) == Base64.Decode(text).value
  {
    match Base64.Decode(text)
    case None => None
    case Some(b) => CharCodesOfLatin1(b); Some(Latin1(b))
  }

  /**
   * `uint8ArrayToBase64`: append `String.fromCharCode(bytes[i])` for every
   * byte, then `btoa`, which cannot throw on such a string.
   */
  method Uint8ArrayToBase64(bytes: array<byte>) returns (text: string)
    ensures text == Base64.Encode(bytes[..])
  {
    var binary := "";
    var len := bytes.Length;
    for i := 0 to len
      invariant |binary| == i
      invariant forall j :: 0 <= j < i ==> binary[j] as int == bytes[j]
    {
      binary := binary + [bytes[i] as char];
    }
    assert IsLatin1(binary);
    assert CharCodes(binary) == bytes[..];
    var encoded := Btoa(binary);
    text := encoded.value;
  }

  /**
   * `base64ToUint8Array`: `atob`, then a new array of the binary string's
   * length with `bytes[i] = binary.charCodeAt(i)`; `None` when `atob` throws.
   */
  method Base64ToUint8Array(text: string) returns (r: Option<array<byte>>)
    ensures r.Some? <==> Base64.Decode(text).Some?
    ensures r.Some? ==> fresh(r.value) && r.value[..] == Base64.Decode(text).value
  {
    var decoded := Atob(text);
    if decoded.None? {
      return None;
    }
    var binary := decoded.value;
    var len := |binary|;
    var bytes := new byte[len];
    for i := 0 to len
      invariant forall j :: 0 <= j < i ==> bytes[j] == binary[j] as int
    {
      bytes[i] := binary[i] as int;
    }
    assert bytes[..] == CharCodes(binary);
    r := Some(bytes);
  }

  /** The two helpers are inverse: bytes survive the trip through base64 text. */
  lemma BytesRoundTrip(b: seq<byte>)
    ensures Btoa(Latin1(b)) == Some(Base64.Encode(b))
    ensures Atob(Base64.Encode(b)) == Some(Latin1(b))
  {
    CharCodesOfLatin1(b);
    Base64.DecodeEncode(b);
  }
}
