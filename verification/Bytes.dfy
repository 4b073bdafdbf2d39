/** Bytes, and the little-endian fields of the remote API frames (extApiPlatform.c leaves the byte order of the
    host alone in the normal build). */
module Bytes {

  type Byte = b: int | 0 <= b < 256

  const WORD_LIMIT := 0x1_0000_0000
  const HALF_LIMIT := 0x1_0000

  function Low(v: nat): Byte {
    var b: int := v % 0x100;
    b
  }

  /** The four bytes of an unsigned 32-bit number. */
  function Word(v: nat): (r: seq<Byte>)
    requires v < WORD_LIMIT
    ensures |r| == 4
  {
    [Low(v), Low(v / 0x100), Low(v / 0x100 / 0x100), Low(v / 0x100 / 0x100 / 0x100)]
  }

  /** The number in the four bytes at `at`. */
  function WordAt(s: seq<Byte>, at: nat): (v: nat)
    requires at + 4 <= |s|
    ensures v < WORD_LIMIT
  {
    s[at] as int + 0x100 * s[at + 1] as int + 0x1_0000 * s[at + 2] as int + 0x100_0000 * s[at + 3] as int
  }

  /** The two bytes of an unsigned 16-bit number. */
  function Half(v: nat): (r: seq<Byte>)
    requires v < HALF_LIMIT
    ensures |r| == 2
  {
    [Low(v), Low(v / 0x100)]
  }

  function HalfAt(s: seq<Byte>, at: nat): (v: nat)
    requires at + 2 <= |s|
    ensures v < HALF_LIMIT
  {
    s[at] as int + 0x100 * s[at + 1] as int
  }

  /** `s` with the bytes `w` written over it from `at` on. */
  function Overwritten<T>(s: seq<T>, at: nat, w: seq<T>): (r: seq<T>)
    requires at + |w| <= |s|
    ensures |r| == |s|
    ensures forall i :: 0 <= i < |s| ==> r[i] == if at <= i < at + |w| then w[i - at] else s[i]
  {
    s[..at] + w + s[at + |w|..]
  }

  lemma WordReadsBack(v: nat)
    requires v < WORD_LIMIT
    ensures WordAt(Word(v), 0) == v
  {
  }

  lemma HalfReadsBack(v: nat)
    requires v < HALF_LIMIT
    ensures HalfAt(Half(v), 0) == v
  {
  }

  /** A field is read from its own bytes only. */
  lemma WordOfSlice(s: seq<Byte>, from: nat, to: nat, at: nat)
    requires from + at + 4 <= to <= |s|
    ensures WordAt(s[from..to], at) == WordAt(s, from + at)
  {
  }

  lemma HalfOfSlice(s: seq<Byte>, from: nat, to: nat, at: nat)
    requires from + at + 2 <= to <= |s|
    ensures HalfAt(s[from..to], at) == HalfAt(s, from + at)
  {
  }
}
