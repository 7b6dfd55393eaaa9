/** Bytes, machine-word bounds and the two result shapes shared by every module. */
module Foundation {

  newtype byte = b: int | 0 <= b < 256

  /** Rust byte slices, and Rust strings, which are UTF-8 byte sequences. */
  type bytes = seq<byte>

  const LF: byte := 10
  const CR: byte := 13
  const SLASH: byte := 47

  const U64_MAX: nat := 0xFFFF_FFFF_FFFF_FFFF

  /** A value that fits a 64-bit unsigned word; `usize` is taken to be 64 bits wide. */
  type u64 = n: nat | n <= U64_MAX

  datatype Option<+T> = None | Some(value: T)

  datatype Result<+T, +E> = Ok(value: T) | Err(error: E)

  /** ASCII text as bytes. */
  function Ascii(s: string): bytes
    requires forall c <- s :: c as int < 0x80
  {
    seq(|s|, i requires 0 <= i < |s| => assert s[i] in s; s[i] as byte)
  }

  function Min(a: nat, b: nat): nat {
    if a < b then a else b
  }

  function SaturatingSub(a: nat, b: nat): nat {
    if b <= a then a - b else 0
  }

  /** The first `n` elements, or all of them. */
  function Take<T>(s: seq<T>, n: nat): (t: seq<T>)
    ensures |t| <= n
  {
    s[..Min(n, |s|)]
  }

  /** The last `n` elements, or all of them. */
  function Last<T>(s: seq<T>, n: nat): seq<T> {
    s[|s| - Min(n, |s|)..]
  }

  lemma ConcatAssociates<T>(a: seq<T>, b: seq<T>, c: seq<T>)
    ensures a + (b + c) == (a + b) + c
  {
  }

  /** `s` cut at `i` and `j`. */
  lemma SlicesJoin<T>(s: seq<T>, i: nat, j: nat)
    requires i <= j <= |s|
    ensures s[i..] == s[i..j] + s[j..]
  {
  }

  lemma RunBetween<T>(s: seq<T>, i: nat, j: nat, run: seq<T>)
    requires i <= j <= |s| && s[i..] == run + s[j..]
    ensures run == s[i..j]
  {
    assert run == s[i..][..|run|];
  }
}
