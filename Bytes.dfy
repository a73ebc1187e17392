/** Go strings are sequences of bytes; this module fixes that representation
    and the UTF-8 encoding used to write string literals in the model. */
module Bytes {

  newtype byte = x: int | 0 <= x < 256

  /** A Go `string`: an immutable sequence of bytes. */
  type Str = seq<byte>

  /** The UTF-8 encoding of one Unicode scalar value. */
  function EncodeRune(c: char): (b: Str)
    ensures 1 <= |b| <= 4
    ensures (c as int < 0x80) == (|b| == 1)
    ensures c as int < 0x80 ==> b[0] as int == c as int
    ensures c as int >= 0x80 ==> forall i | 0 < i < |b| :: 0x80 <= b[i] < 0xC0
    ensures c as int >= 0x80 ==> b[0] >= 0xC0
  {
    var n := c as int;
    if n < 0x80 then [n as byte]
    else if n < 0x800 then [(0xC0 + n / 64) as byte, (0x80 + n % 64) as byte]
    else if n < 0x10000 then
      [(0xE0 + n / 4096) as byte, (0x80 + (n / 64) % 64) as byte, (0x80 + n % 64) as byte]
    else
      [(0xF0 + n / 262144) as byte, (0x80 + (n / 4096) % 64) as byte,
       (0x80 + (n / 64) % 64) as byte, (0x80 + n % 64) as byte]
  }

  /** The scalar value a UTF-8 sequence of one to four bytes stands for. */
  function DecodeRune(b: Str): int
    requires 1 <= |b| <= 4
  {
    if |b| == 1 then b[0] as int
    else if |b| == 2 then (b[0] as int - 0xC0) * 64 + (b[1] as int - 0x80)
    else if |b| == 3 then (b[0] as int - 0xE0) * 4096 + (b[1] as int - 0x80) * 64 + (b[2] as int - 0x80)
    else (b[0] as int - 0xF0) * 262144 + (b[1] as int - 0x80) * 4096 + (b[2] as int - 0x80) * 64 + (b[3] as int - 0x80)
  }

  /** Decoding undoes the encoding. */
  lemma DecodeEncodeRune(c: char)
    ensures DecodeRune(EncodeRune(c)) == c as int
  {
    var n := c as int;
    assert n == 64 * (n / 64) + n % 64;
    assert n / 64 == 64 * (n / 4096) + (n / 64) % 64;
    assert n / 4096 == 64 * (n / 262144) + (n / 4096) % 64;
  }

  /** Distinct characters have distinct encodings. */
  lemma EncodeRuneInjective(c: char, d: char)
    requires EncodeRune(c) == EncodeRune(d)
    ensures c == d
  {
    DecodeEncodeRune(c);
    DecodeEncodeRune(d);
  }

  /** The bytes of an ASCII string literal: one byte per character, equal to
      its code. Used only on literals whose characters are all below 128. */
  function Ascii(s: string): (b: Str)
    ensures |b| == |s|
  {
    seq(|s|, i requires 0 <= i < |s| => (s[i] as int % 256) as byte)
  }

  /** Concatenation is associative (stated once so that proofs about
      decoders need not re-derive it element by element). */
  lemma ConcatAssoc<T>(x: seq<T>, y: seq<T>, z: seq<T>)
    ensures x + (y + z) == (x + y) + z
  {
  }

  /** Two ways of cutting out `s[i..j]`. */
  lemma Slices<T>(s: seq<T>, i: nat, j: nat)
    requires i <= j <= |s|
    ensures s[i..][..j - i] == s[i..j] && s[..j][i..] == s[i..j]
  {
  }

  /** Dropping twice is dropping once. */
  lemma DropDrop<T>(s: seq<T>, i: nat, j: nat)
    requires i + j <= |s|
    ensures s[i..][j..] == s[i + j..]
  {
  }

  /** Taking a shorter prefix of a prefix. */
  lemma TakeTake<T>(s: seq<T>, i: nat, j: nat)
    requires j <= i <= |s|
    ensures s[..i][..j] == s[..j]
  {
  }

  /** Splitting off the first element of a suffix. */
  lemma ConsSplit<T>(s: seq<T>, j: nat, tail: seq<T>)
    requires j < |s|
    ensures s[j..] + tail == [s[j]] + (s[j + 1..] + tail)
  {
    assert s[j..] == [s[j]] + s[j + 1..];
  }

  /** Dropping the head of a cons. */
  lemma DropCons<T>(x: T, s: seq<T>)
    ensures ([x] + s)[1..] == s
  {
  }

  /** Dropping the first part of a concatenation. */
  lemma DropPrefix<T>(a: seq<T>, b: seq<T>)
    ensures (a + b)[|a|..] == b
  {
  }
}
