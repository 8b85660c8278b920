/** Byte strings and the small result types every other module uses.
    A Go string, a path and a file's contents are all byte sequences. */
module Bytes {
  type byte = b: int | 0 <= b < 256

  /** The output of SHA-256 and of HMAC-SHA256. */
  type Digest = d: seq<byte> | |d| == 32 witness seq(32, _ => 0)

  /** Any hash function at all: no claim depends on which. */
  type Hash = seq<byte> -> Digest

  datatype Option<+T> = None | Some(value: T)

  datatype Result<+T> = Ok(value: T) | Err

  /** The bytes of an ASCII literal. */
  function B(s: string): (r: seq<byte>)
    ensures |r| == |s|
    ensures forall i :: 0 <= i < |s| ==> r[i] == s[i] as int % 256
  {
    seq(|s|, i requires 0 <= i < |s| => s[i] as int % 256)
  }

  predicate HasSuffix<T(==)>(s: seq<T>, suffix: seq<T>) {
    |suffix| <= |s| && s[|s| - |suffix|..] == suffix
  }

  function Pow2(n: nat): nat {
    if n == 0 then 1 else 2 * Pow2(n - 1)
  }

  function Min(a: nat, b: nat): nat {
    if a < b then a else b
  }

  function Max(a: nat, b: nat): nat {
    if a < b then b else a
  }
}
