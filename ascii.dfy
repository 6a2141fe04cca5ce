/**
 * Bytes on the wire and the ASCII codec (`Encoding.ASCII`) the proxy uses to turn
 * them into text and back. The codec replaces everything outside 0x00..0x7F
 * by '?' in both directions.
 */
module Ascii {

  newtype byte = b: int | 0 <= b < 0x100

  /** The byte and the character the codec substitutes for anything it cannot represent. */
  const Replacement: byte := 0x3F

  predicate IsAsciiChar(c: char) {
    (c as int) < 0x80
  }

  predicate IsAsciiText(s: string) {
    forall i :: 0 <= i < |s| ==> IsAsciiChar(s[i])
  }

  predicate IsAsciiBytes(b: seq<byte>) {
    forall i :: 0 <= i < |b| ==> b[i] < 0x80
  }

  function DecodeByte(b: byte): char {
    if b < 0x80 then (b as int) as char else '?'
  }

  function EncodeChar(c: char): byte {
    if IsAsciiChar(c) then (c as int) as byte else Replacement
  }

  /** `Encoding.ASCII.GetString`: one character per byte, every one of them ASCII. */
  function Decode(b: seq<byte>): (s: string)
    ensures |s| == |b| && IsAsciiText(s)
  {
    seq(|b|, i requires 0 <= i < |b| => DecodeByte(b[i]))
  }

  /** `Encoding.ASCII.GetBytes`: one byte per character, every one of them below 0x80. */
  function Encode(s: string): (b: seq<byte>)
    ensures |b| == |s| && IsAsciiBytes(b)
  {
    seq(|s|, i requires 0 <= i < |s| => EncodeChar(s[i]))
  }

  /** The byte sequence with every byte 0x80 or above replaced by '?'. */
  function Sanitize(b: seq<byte>): (r: seq<byte>)
  {
    seq(|b|, i requires 0 <= i < |b| => if b[i] < 0x80 then b[i] else Replacement)
  }

  /** Decoding then encoding keeps every ASCII byte and turns every other byte into '?'. */
  lemma EncodeDecode(b: seq<byte>)
    ensures |Encode(Decode(b))| == |b|
    ensures forall i :: 0 <= i < |b| ==> Encode(Decode(b))[i] == (if b[i] < 0x80 then b[i] else Replacement)
    ensures Encode(Decode(b)) == Sanitize(b)
  {
  }

  /** Encoding then decoding is the identity on ASCII text. */
  lemma DecodeEncode(s: string)
    requires IsAsciiText(s)
    ensures Decode(Encode(s)) == s
  {
  }

  /** Encoding works character by character, so it distributes over concatenation. */
  lemma EncodeAppend(s: string, t: string)
    ensures Encode(s + t) == Encode(s) + Encode(t)
  {
  }

  /** Decoding works byte by byte, so it commutes with taking a suffix. */
  lemma DecodeSuffix(b: seq<byte>, k: nat)
    requires k <= |b|
    ensures Decode(b)[k..] == Decode(b[k..])
  {
  }

  /** Decoding works byte by byte, so it commutes with taking any slice. */
  lemma DecodeSlice(b: seq<byte>, j: nat, k: nat)
    requires j <= k <= |b|
    ensures Decode(b)[j..k] == Decode(b[j..k])
  {
  }

  /** Sanitizing ASCII bytes changes nothing. */
  lemma SanitizeAscii(b: seq<byte>)
    requires IsAsciiBytes(b)
    ensures Sanitize(b) == b
  {
  }
}
