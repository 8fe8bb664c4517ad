/**
 * Opaque tokens: `randomBytes(n).toString('hex')`, used for session ids and
 * CSRF tokens. The random bytes are an input; the encoding is modelled.
 */
module Tokens {
  import opened Common

  /** Number of random bytes behind every session id and CSRF token. */
  const TokenBytes: nat := 32

  predicate IsLowerHex(c: char) {
    '0' <= c <= '9' || 'a' <= c <= 'f'
  }

  /** The lower-case hexadecimal digit for a value below 16. */
  function HexDigit(d: int): (c: char)
    requires 0 <= d < 16
    ensures IsLowerHex(c)
    ensures HexValue(c) == d
  {
    if d < 10 then ('0' as int + d) as char else ('a' as int + d - 10) as char
  }

  /** The value of a lower-case hexadecimal digit. */
  function HexValue(c: char): (d: int)
    requires IsLowerHex(c)
    ensures 0 <= d < 16
  {
    if c <= '9' then c as int - '0' as int else c as int - 'a' as int + 10
  }

  /** Node's `Buffer.toString('hex')`: two lower-case digits per byte, high nibble first. */
  function Hex(bytes: seq<byte>): (s: string)
    ensures |s| == 2 * |bytes|
    ensures forall i :: 0 <= i < |s| ==> IsLowerHex(s[i])
  {
    if bytes == [] then []
    else
      var b := bytes[0] as int;
      [HexDigit(b / 16), HexDigit(b % 16)] + Hex(bytes[1..])
  }

  /** Reads back a string of lower-case hexadecimal digit pairs. */
  function Unhex(s: string): (bytes: seq<byte>)
    requires |s| % 2 == 0
    requires forall i :: 0 <= i < |s| ==> IsLowerHex(s[i])
    ensures 2 * |bytes| == |s|
  {
    if s == [] then []
    else [(16 * HexValue(s[0]) + HexValue(s[1])) as byte] + Unhex(s[2..])
  }

  /** Hex encoding loses nothing: distinct random inputs give distinct tokens. */
  lemma {:induction false} UnhexHex(bytes: seq<byte>)
    ensures Unhex(Hex(bytes)) == bytes
  {
    if bytes != [] {
      var b := bytes[0] as int;
      var s := Hex(bytes);
      assert s == [HexDigit(b / 16), HexDigit(b % 16)] + Hex(bytes[1..]);
      assert s[2..] == Hex(bytes[1..]);
      UnhexHex(bytes[1..]);
      assert 16 * (b / 16) + b % 16 == b;
    }
  }

  /** A token drawn from 32 random bytes is 64 lower-case hexadecimal characters. */
  lemma TokenShape(bytes: seq<byte>)
    requires |bytes| == TokenBytes
    ensures |Hex(bytes)| == 64
    ensures forall i :: 0 <= i < 64 ==> IsLowerHex(Hex(bytes)[i])
  {
  }

  /** Equal tokens come from equal random bytes. */
  lemma HexInjective(a: seq<byte>, b: seq<byte>)
    requires Hex(a) == Hex(b)
    ensures a == b
  {
    UnhexHex(a);
    UnhexHex(b);
  }
}
