/** PKCS#7 padding to the AES block size (section 6.3 of RFC 5652). */
module Padding {
  import opened Bytes

  const BLOCK := 16

  function Pad(b: seq<byte>): (p: seq<byte>)
    ensures |p| % BLOCK == 0
  {
    var n := BLOCK - |b| % BLOCK;
    b + seq(n, _ => n)
  }

  function Unpad(b: seq<byte>): Result<seq<byte>> {
    if |b| == 0 || |b| % BLOCK != 0 then Err
    else
      var n := b[|b| - 1];
      if n == 0 || n > BLOCK || n > |b| then Err
      else if exists i | |b| - n <= i < |b| :: b[i] != n then Err
      else Ok(b[..|b| - n])
  }

  /** Unpad accepts exactly the padded strings, and returns what was padded. */
  lemma UnpadInvertsPad(x: seq<byte>, b: seq<byte>)
    ensures |Pad(b)| % BLOCK == 0 && |Pad(b)| > |b|
    ensures Unpad(x) == Ok(b) <==> x == Pad(b)
  {
  }

  /** Between one and sixteen bytes are added, up to the next whole block, and each of them says how many. */
  lemma PaddedBytes(b: seq<byte>)
    ensures var p := Pad(b);
            && b <= p && 1 <= |p| - |b| <= 16 && |p| % 16 == 0
            && forall i :: |b| <= i < |p| ==> p[i] == |p| - |b|
  {
  }

  /** The buffer-filling loop the admin runs before encrypting. */
  method Pkcs7Pad(b: seq<byte>) returns (r: seq<byte>)
    ensures r == Pad(b)
  {
    var n := BLOCK - |b| % BLOCK;
    var pad := new byte[n];
    for i := 0 to n
      invariant forall j :: 0 <= j < i ==> pad[j] == n
    {
      pad[i] := n;
    }
    assert pad[..] == seq(n, _ => n);
    r := b + pad[..];
  }
}
