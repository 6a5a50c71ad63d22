/** Bytes, the control characters the relay uses, and the C string
    conventions (NUL termination, strlen) the server relies on. */
module Bytes {

  newtype byte = x: int | 0 <= x < 256

  const NUL: byte := 0
  /** END_OF_TEXT_BYTE, the first sentinel of the command trailer. */
  const ETX: byte := 3
  /** END_OF_TRANSMISSION_BYTE, the second sentinel of the command trailer. */
  const EOT: byte := 4
  const NL: byte := 10
  const SPACE: byte := 32

  /** The bytes of a string literal, one per character: the character code
      for ASCII (and Latin-1) text. */
  function Ascii(s: string): (r: seq<byte>)
    ensures |r| == |s|
    ensures forall i :: 0 <= i < |s| ==> r[i] as int == s[i] as int % 256
  {
    seq(|s|, i requires 0 <= i < |s| => (s[i] as int % 256) as byte)
  }

  /** A buffer after `memset(buf, 0, n)`. */
  function Zeroed(n: nat): (r: seq<byte>)
    ensures |r| == n
    ensures forall i :: 0 <= i < n ==> r[i] == NUL
  {
    seq(n, _ => NUL)
  }

  /** `buf` after `data` is copied over it starting at offset `at`. */
  function Overwrite(buf: seq<byte>, at: nat, data: seq<byte>): (r: seq<byte>)
    requires at + |data| <= |buf|
    ensures |r| == |buf|
    ensures forall k :: 0 <= k < at ==> r[k] == buf[k]
    ensures forall k :: 0 <= k < |data| ==> r[at + k] == data[k]
    ensures forall k :: at + |data| <= k < |buf| ==> r[k] == buf[k]
  {
    buf[..at] + data + buf[at + |data|..]
  }

  /** The C string a buffer holds: every byte before the first NUL.
      Its length is what `strlen` returns. */
  function CStr(buf: seq<byte>): (r: seq<byte>)
    ensures r <= buf
    ensures NUL !in r
    ensures |r| < |buf| ==> buf[|r|] == NUL
  {
    if |buf| == 0 || buf[0] == NUL then [] else [buf[0]] + CStr(buf[1..])
  }

  /** A NUL-free text followed by a terminator reads back as exactly that text,
      whatever lies after the terminator. */
  lemma CStrOfTerminated(s: seq<byte>, rest: seq<byte>)
    requires NUL !in s
    ensures CStr(s + [NUL] + rest) == s
  {
    var buf := s + [NUL] + rest;
    var r := CStr(buf);
    assert forall k :: 0 <= k < |s| ==> buf[k] == s[k] != NUL;
    assert forall k :: 0 <= k < |r| ==> buf[k] == r[k] != NUL;
    assert buf[|s|] == NUL;
    assert r == buf[..|r|] && buf[..|s|] == s;
  }
}
