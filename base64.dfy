/**
 * The base64 encoding of section 4 of RFC 4648: every 3 bytes become 4
 * characters of the alphabet A-Z a-z 0-9 + /, and a final group of 1 or 2
 * bytes is completed with `=`.  This is what the browser's `btoa` and `atob`
 * compute on Latin-1 strings.
 */
module Base64 {
  import opened Wrappers
  import opened Bytes

  predicate IsBase64Char(c: char) {
    ('A' <= c <= 'Z') || ('a' <= c <= 'z') || ('0' <= c <= '9') || c == '+' || c == '/'
  }

  /** The character for a 6-bit value (RFC 4648 table 1). */
  function CharOf(v: nat): (c: char)
    requires v < 64
    ensures IsBase64Char(c)
  {
    if v < 26 then ('A' as int + v) as char
    else if v < 52 then ('a' as int + (v - 26)) as char
    else if v < 62 then ('0' as int + (v - 52)) as char
    else if v == 62 then '+'
    else '/'
  }

  /** The 6-bit value of an alphabet character. */
  function ValueOf(c: char): (v: nat)
    requires IsBase64Char(c)
    ensures v < 64 && CharOf(v) == c
  {
    if 'A' <= c <= 'Z' then c as int - 'A' as int
    else if 'a' <= c <= 'z' then c as int - 'a' as int + 26
    else if '0' <= c <= '9' then c as int - '0' as int + 52
    else if c == '+' then 62
    else 63
  }

  lemma ValueOfCharOf(v: nat)
    requires v < 64
    ensures ValueOf(CharOf(v)) == v
  {
  }

  /** Three bytes as four characters. */
  function EncodeGroup(b0: byte, b1: byte, b2: byte): (g: string)
    ensures |g| == 4 && forall i :: 0 <= i < |g| ==> IsBase64Char(g[i])
  {
    [CharOf(b0 / 4), CharOf((b0 % 4) * 16 + b1 / 16), CharOf((b1 % 16) * 4 + b2 / 64), CharOf(b2 % 64)]
  }

  lemma GroupMultiple(n: nat)
    requires n % 4 == 0
    ensures (4 + n) % 4 == 0
  { }

  function Encode(b: seq<byte>): (s: string)
    ensures |s| >= |b| && |s| % 4 == 0
    ensures forall i :: 0 <= i < |s| ==> IsBase64Char(s[i]) || s[i] == '='
    decreases |b|
  {
    if |b| == 0 then ""
    else if |b| == 1 then [CharOf(b[0] / 4), CharOf((b[0] % 4) * 16), '=', '=']
    else if |b| == 2 then [CharOf(b[0] / 4), CharOf((b[0] % 4) * 16 + b[1] / 16), CharOf((b[1] % 16) * 4), '=']
    else
      var g, rest := EncodeGroup(b[0], b[1], b[2]), Encode(b[3..]);
      assert forall i :: 0 <= i < |rest| ==> (g + rest)[4 + i] == rest[i];
      GroupMultiple(|rest|);
      g + rest
  }

  /** Every started group of three bytes becomes four characters. */
  lemma {:induction false} EncodeLength(b: seq<byte>)
    ensures |Encode(b)| == 4 * ((|b| + 2) / 3)
    decreases |b|
  {
    if |b| > 3 {
      EncodeLength(b[3..]);
      assert (|b| + 2) / 3 == (|b[3..]| + 2) / 3 + 1;
    }
  }

  /** Four characters as three bytes. */
  function DecodeGroup(c0: nat, c1: nat, c2: nat, c3: nat): seq<byte>
    requires c0 < 64 && c1 < 64 && c2 < 64 && c3 < 64
  {
    [c0 * 4 + c1 / 16, (c1 % 16) * 16 + c2 / 4, (c2 % 4) * 64 + c3]
  }

  /** The last group of four characters, where `=` padding may stand. */
  function DecodeLast(q: string): Option<seq<byte>>
    requires |q| == 4
  {
    if !(IsBase64Char(q[0]) && IsBase64Char(q[1])) then None
    else
      var c0, c1 := ValueOf(q[0]), ValueOf(q[1]);
      if q[2] == '=' && q[3] == '=' then Some([c0 * 4 + c1 / 16])
      else if IsBase64Char(q[2]) && q[3] == '=' then
        var c2 := ValueOf(q[2]);
        Some([c0 * 4 + c1 / 16, (c1 % 16) * 16 + c2 / 4])
      else if IsBase64Char(q[2]) && IsBase64Char(q[3]) then
        Some(DecodeGroup(c0, c1, ValueOf(q[2]), ValueOf(q[3])))
      else None
  }

  /**
   * Decoding: the length must be a multiple of 4, padding may only close the
   * last group, and any other character is refused.  Like `atob`, unused low
   * bits of a padded group are ignored.
   */
  function Decode(s: string): (r: Option<seq<byte>>)
    decreases |s|
  {
    if |s| == 0 then Some([])
    else if |s| < 4 then None
    else if |s| == 4 then DecodeLast(s)
    else if IsBase64Char(s[0]) && IsBase64Char(s[1]) && IsBase64Char(s[2]) && IsBase64Char(s[3]) then
      match Decode(s[4..])
      case None => None
      case Some(rest) => Some(DecodeGroup(ValueOf(s[0]), ValueOf(s[1]), ValueOf(s[2]), ValueOf(s[3])) + rest)
    else None
  }

  lemma GroupRoundTrip(b0: byte, b1: byte, b2: byte)
    ensures DecodeGroup(b0 / 4, (b0 % 4) * 16 + b1 / 16, (b1 % 16) * 4 + b2 / 64, b2 % 64) == [b0, b1, b2]
  {
  }

  lemma DecodeEncodeOne(b0: byte)
    ensures Decode(Encode([b0])) == Some([b0])
  {
    ValueOfCharOf(b0 / 4);
    ValueOfCharOf((b0 % 4) * 16);
  }

  lemma DecodeEncodeTwo(b0: byte, b1: byte)
    ensures Decode(Encode([b0, b1])) == Some([b0, b1])
  {
    var c1 := (b0 % 4) * 16 + b1 / 16;
    var c2 := (b1 % 16) * 4;
    ValueOfCharOf(b0 / 4);
    ValueOfCharOf(c1);
    ValueOfCharOf(c2);
    assert c1 / 16 == b0 % 4 && c1 % 16 == b1 / 16;
    assert c2 / 4 == b1 % 16;
    var q := Encode([b0, b1]);
    assert q == [CharOf(b0 / 4), CharOf(c1), CharOf(c2), '='];
    assert DecodeLast(q) == Some([(b0 / 4) * 4 + c1 / 16, (c1 % 16) * 16 + c2 / 4]);
  }

  /** The four characters of a full group decode to its three bytes. */
  lemma DecodeEncodeGroup(b0: byte, b1: byte, b2: byte)
    ensures var g := EncodeGroup(b0, b1, b2);
      IsBase64Char(g[0]) && IsBase64Char(g[1]) && IsBase64Char(g[2]) && IsBase64Char(g[3]) &&
      DecodeGroup(ValueOf(g[0]), ValueOf(g[1]), ValueOf(g[2]), ValueOf(g[3])) == [b0, b1, b2]
  {
    ValueOfCharOf(b0 / 4);
    ValueOfCharOf((b0 % 4) * 16 + b1 / 16);
    ValueOfCharOf((b1 % 16) * 4 + b2 / 64);
    ValueOfCharOf(b2 % 64);
    GroupRoundTrip(b0, b1, b2);
  }

  lemma DecodeEncodeThree(b0: byte, b1: byte, b2: byte)
    ensures Decode(Encode([b0, b1, b2])) == Some([b0, b1, b2])
  {
    var b := [b0, b1, b2];
    assert b[3..] == [];
    DecodeEncodeGroup(b0, b1, b2);
    assert Encode(b) == EncodeGroup(b0, b1, b2);
  }

  /** A full group in front of a non-empty remainder decodes group by group. */
  lemma DecodeFullGroup(g: string, t: string)
    requires |g| == 4 && |t| > 0
    requires IsBase64Char(g[0]) && IsBase64Char(g[1]) && IsBase64Char(g[2]) && IsBase64Char(g[3])
    requires Decode(t).Some?
    ensures Decode(g + t) == Some(DecodeGroup(ValueOf(g[0]), ValueOf(g[1]), ValueOf(g[2]), ValueOf(g[3])) + Decode(t).value)
  {
    var s := g + t;
    assert s[..4] == g && s[4..] == t;
    assert s[0] == g[0] && s[1] == g[1] && s[2] == g[2] && s[3] == g[3];
  }

  lemma Decompose(b: seq<byte>)
    requires |b| >= 3
    ensures b == [b[0], b[1], b[2]] + b[3..]
  {
  }

  lemma EncodeCons(b0: byte, b1: byte, b2: byte, rest: seq<byte>)
    ensures Encode([b0, b1, b2] + rest) == EncodeGroup(b0, b1, b2) + Encode(rest)
  {
    var b := [b0, b1, b2] + rest;
    assert b[3..] == rest;
  }

  lemma DecodeCons(b0: byte, b1: byte, b2: byte, t: string, rest: seq<byte>)
    requires |t| > 0 && Decode(t) == Some(rest)
    ensures Decode(EncodeGroup(b0, b1, b2) + t) == Some([b0, b1, b2] + rest)
  {
    DecodeEncodeGroup(b0, b1, b2);
    DecodeFullGroup(EncodeGroup(b0, b1, b2), t);
  }

  /** Decoding inverts encoding, for every byte string. */
  lemma {:induction false} DecodeEncode(b: seq<byte>)
    ensures Decode(Encode(b)) == Some(b)
    decreases |b|
  {
    if |b| == 1 {
      assert b == [b[0]];
      DecodeEncodeOne(b[0]);
    } else if |b| == 2 {
      assert b == [b[0], b[1]];
      DecodeEncodeTwo(b[0], b[1]);
    } else if |b| == 3 {
      assert b == [b[0], b[1], b[2]];
      DecodeEncodeThree(b[0], b[1], b[2]);
    } else if |b| > 3 {
      var rest := b[3..];
      var t := Encode(rest);
      Decompose(b);
      DecodeEncode(rest);
      EncodeCons(b[0], b[1], b[2], rest);
      DecodeCons(b[0], b[1], b[2], t, rest);
    }
  }
}
