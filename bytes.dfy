/** Byte strings: zero-filled buffers and big-endian integers. */
module Bytes {

  /** One byte of a binary (ASCII-8BIT) Ruby string. */
  type byte = x: int | 0 <= x < 0x100

  function Min(a: int, b: int): int { if a < b then a else b }

  function Max(a: int, b: int): int { if a < b then b else a }

  /** A fresh zero-filled buffer, as `[0x00].pack('C') * n` builds it. */
  function Zeros(n: nat): (z: seq<byte>)
    ensures |z| == n
    ensures forall i :: 0 <= i < n ==> z[i] == 0
  {
    seq(n, _ => 0)
  }

  /** The content of a zero-filled buffer of `minLen` bytes after `written` has been written
      from its start through a StringIO, which extends the string when a write passes its end. */
  function Padded(written: seq<byte>, minLen: nat): (r: seq<byte>)
    ensures |r| == Max(minLen, |written|)
    ensures r[..|written|] == written
    ensures forall i :: |written| <= i < |r| ==> r[i] == 0
  {
    if |written| < minLen then written + Zeros(minLen - |written|) else written
  }

  /** A buffer of `len` bytes whose first bytes are `written` and whose rest is still zero
      holds `Padded(written, minLen)` once `len` is the larger of `minLen` and `|written|`. */
  lemma PaddedFill(written: seq<byte>, minLen: nat, len: nat)
    requires len == Max(minLen, |written|)
    ensures written + Zeros(len - |written|) == Padded(written, minLen)
  {
    if |written| >= minLen {
      assert Zeros(0) == [];
    }
  }

  function U16BE(s: seq<byte>): nat
    requires |s| >= 2
  {
    (s[0] as int) * 0x100 + s[1]
  }

  function U32BE(s: seq<byte>): nat
    requires |s| >= 4
  {
    (s[0] as int) * 0x100_0000 + (s[1] as int) * 0x1_0000 + (s[2] as int) * 0x100 + s[3]
  }

  /** The four big-endian bytes of a 32-bit unsigned value (`[n].pack('N')`). */
  function U32Bytes(n: nat): (r: seq<byte>)
    requires n < 0x1_0000_0000
    ensures |r| == 4 && U32BE(r) == n
  {
    var b0, r0 := n / 0x100_0000, n % 0x100_0000;
    var b1, r1 := r0 / 0x1_0000, r0 % 0x1_0000;
    [b0, b1, r1 / 0x100, r1 % 0x100]
  }
}
