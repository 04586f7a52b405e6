/** Bytes and their Latin-1 (one char per byte) string form. */
module Bytes {

  type byte = x: int | 0 <= x < 256

  /** The string whose i-th character has char code `b[i]` (`String.fromCharCode` per byte). */
  function Latin1(b: seq<byte>): (s: string)
    ensures |s| == |b|
    ensures forall i :: 0 <= i < |b| ==> s[i] as int == b[i]
  {
    seq(|b|, i requires 0 <= i < |b| => b[i] as char)
  }

  /** Every character of `s` has a char code below 256. */
  predicate IsLatin1(s: string) {
    forall i :: 0 <= i < |s| ==> s[i] as int < 256
  }

  /** The char codes of a Latin-1 string (`charCodeAt` per position). */
  function CharCodes(s: string): (b: seq<byte>)
    requires IsLatin1(s)
    ensures |b| == |s|
    ensures forall i :: 0 <= i < |s| ==> b[i] == s[i] as int
  {
    seq(|s|, i requires 0 <= i < |s| => s[i] as int)
  }

  lemma CharCodesOfLatin1(b: seq<byte>)
    ensures IsLatin1(Latin1(b)) && CharCodes(Latin1(b)) == b
  {
  }
}
