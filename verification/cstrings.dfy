/**
 The byte and C-string vocabulary shared by the rest of the model.

 A C string is modelled as the sequence of characters of its buffer. Reading
 the character under a pointer is `Peek`: once the sequence is exhausted it
 yields the terminating NUL, and an embedded NUL reads as the end of the
 string exactly as it does in C.
 */
module CStrings {

  /** An octet as stored in a UDP datagram. */
  type byte = x: int | 0 <= x < 256

  /** A C `char`: one octet, viewed as a character. */
  type Char8 = c: char | c as int < 256 witness 'P'

  /** The character a pointer to the start of `s` reads. */
  function Peek(s: string): char
  {
    if |s| == 0 then '\0' else s[0]
  }

  /** True iff `s` holds no NUL, so that its C view is all of `s`. */
  predicate NulFree(s: string)
  {
    forall i :: 0 <= i < |s| ==> s[i] != '\0'
  }

  /** The octets of a sequence of C chars. */
  function BytesOf(s: seq<Char8>): (b: seq<byte>)
    ensures |b| == |s|
    ensures forall i :: 0 <= i < |s| ==> b[i] == s[i] as int
  {
    seq(|s|, i requires 0 <= i < |s| => s[i] as int)
  }

  /** The C chars of a sequence of octets. */
  function CharsOf(b: seq<byte>): (s: seq<Char8>)
    ensures |s| == |b|
    ensures forall i :: 0 <= i < |b| ==> s[i] as int == b[i]
  {
    seq(|b|, i requires 0 <= i < |b| => b[i] as char)
  }

  /** `strlen` over a byte buffer: the offset of the first zero byte, or the
      buffer's length when it has none. */
  function CLen(b: seq<byte>): (n: nat)
    ensures n <= |b|
    ensures forall i :: 0 <= i < n ==> b[i] != 0
    ensures n < |b| ==> b[n] == 0
  {
    ZeroFrom(b, 0)
  }

  /** The first position at or after `i` holding a zero byte, or the end of
      `b`: the scan `strlen` makes, started at `i`. */
  function ZeroFrom(b: seq<byte>, i: nat): (n: nat)
    requires i <= |b|
    ensures i <= n <= |b|
    ensures forall j :: i <= j < n ==> b[j] != 0
    ensures n < |b| ==> b[n] == 0
    decreases |b| - i
  {
    if i == |b| || b[i] == 0 then i else ZeroFrom(b, i + 1)
  }

  /** Reading the octets of chars back gives the chars. */
  lemma CharsOfBytesOf(s: seq<Char8>)
    ensures CharsOf(BytesOf(s)) == s
  {
  }
}
