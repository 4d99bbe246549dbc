/** Machine integers, the panics that Rust's checked arithmetic raises, and the
    UTF-8 byte length that `str::len` reports. */
module Bytes {

  const U64_MAX: int := 0xFFFF_FFFF_FFFF_FFFF

  /** Rust's `u64`. Arithmetic is done on `int` and a result is only stored
      back after an explicit range check, as a debug build of the program does. */
  type u64 = x: int | 0 <= x <= U64_MAX

  /** The two ways the checked `u64` arithmetic of the content pipeline can panic. */
  datatype Panic = AddOverflow | SubtractOverflow

  /** A value, or the panic that aborted its computation. */
  datatype Result<T> = Ok(value: T) | Err(error: Panic)

  /** Number of bytes UTF-8 uses for one Unicode scalar value. */
  function CharByteLen(c: char): (n: nat)
    ensures 1 <= n <= 4
    ensures n == 1 <==> c as int < 0x80
  {
    if c as int < 0x80 then 1
    else if c as int < 0x800 then 2
    else if c as int < 0x1_0000 then 3
    else 4
  }

  /** `str::len`: the length of the UTF-8 encoding of `s`, in bytes. Every
      character takes one to four bytes. */
  function ByteLen(s: string): (n: nat)
    ensures |s| <= n <= 4 * |s|
  {
    if s == [] then 0 else ByteLen(s[..|s| - 1]) + CharByteLen(s[|s| - 1])
  }

  predicate IsAscii(s: string)
  {
    forall k :: 0 <= k < |s| ==> s[k] as int < 0x80
  }

  /** Byte length is additive over concatenation. */
  lemma {:induction false} ByteLenAppend(a: string, b: string)
    ensures ByteLen(a + b) == ByteLen(a) + ByteLen(b)
    decreases |b|
  {
    if b == [] {
      assert a + b == a;
    } else {
      var b' := b[..|b| - 1];
      assert (a + b)[..|a + b| - 1] == a + b';
      ByteLenAppend(a, b');
    }
  }

  /** ASCII text, and only ASCII text, takes exactly one byte per character. */
  lemma {:induction false} AsciiByteLen(s: string)
    ensures IsAscii(s) <==> ByteLen(s) == |s|
    decreases |s|
  {
    if s != [] {
      var s' := s[..|s| - 1];
      AsciiByteLen(s');
      assert IsAscii(s) <==> IsAscii(s') && s[|s| - 1] as int < 0x80 by {
        if IsAscii(s') && s[|s| - 1] as int < 0x80 {
          forall k | 0 <= k < |s| ensures s[k] as int < 0x80 {
            if k < |s| - 1 { assert s[k] == s'[k]; }
          }
        }
        if IsAscii(s) {
          forall k | 0 <= k < |s'| ensures s'[k] as int < 0x80 {
            assert s'[k] == s[k];
          }
        }
      }
    }
  }
}
