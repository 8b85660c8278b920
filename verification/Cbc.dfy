/** Cipher block chaining (section 6.2 of NIST SP 800-38A) over an arbitrary block permutation. */
module Cbc {
  import opened Bytes
  import opened Padding

  type Block = b: seq<byte> | |b| == BLOCK witness seq(BLOCK, _ => 0)

  /** The primitives the program calls but does not define. */
  datatype Primitives = Primitives(
    sha256: seq<byte> -> Digest,
    hmac: (seq<byte>, seq<byte>) -> Digest,
    enc: (Digest, Block) -> Block,
    dec: (Digest, Block) -> Block)

  ghost predicate Permutes(p: Primitives) {
    forall k: Digest, b: Block :: p.dec(k, p.enc(k, b)) == b && p.enc(k, p.dec(k, b)) == b
  }

  /** Any hash, any MAC and any block cipher whose two directions undo each other. */
  type Suite = p: Primitives | Permutes(p)
    ghost witness Primitives(_ => seq(32, _ => 0), (_, _) => seq(32, _ => 0), (_, b) => b, (_, b) => b)

  function XorBits(n: nat, a: int, b: int): int {
    if n == 0 then 0 else (a % 2 + b % 2) % 2 + 2 * XorBits(n - 1, a / 2, b / 2)
  }

  lemma SplitBit(bit: int, q: int)
    requires 0 <= bit < 2
    ensures (bit + 2 * q) / 2 == q && (bit + 2 * q) % 2 == bit
  {
  }

  lemma Halves(a: int, m: nat)
    requires 0 <= a < 2 * m
    ensures 0 <= a / 2 < m && a == a % 2 + 2 * (a / 2)
  {
  }

  lemma BitCancels(a: int, b: int)
    ensures ((a % 2 + b % 2) % 2 + b % 2) % 2 == a % 2
  {
  }

  lemma {:induction false} XorCancels(n: nat, a: int, b: int)
    requires 0 <= a < Pow2(n)
    ensures 0 <= XorBits(n, a, b) < Pow2(n)
    ensures XorBits(n, XorBits(n, a, b), b) == a
  {
    if n > 0 {
      var q, bit := XorBits(n - 1, a / 2, b / 2), (a % 2 + b % 2) % 2;
      Halves(a, Pow2(n - 1));
      XorCancels(n - 1, a / 2, b / 2);
      SplitBit(bit, q);
      BitCancels(a, b);
      assert XorBits(n, a, b) == bit + 2 * q;
      assert XorBits(n, bit + 2 * q, b) == (bit + b % 2) % 2 + 2 * XorBits(n - 1, q, b / 2);
    }
  }

  function Xor(a: byte, b: byte): byte {
    XorCancels(8, a, b);
    assert Pow2(8) == 2 * 2 * Pow2(6) == 256;
    XorBits(8, a, b)
  }

  /** Bit number i, counted from the lowest. */
  function Bit(x: int, i: nat): int
    decreases i
  {
    if i == 0 then x % 2 else Bit(x / 2, i - 1)
  }

  lemma {:induction false} XorBitsBit(n: nat, a: int, b: int, i: nat)
    requires i < n
    ensures Bit(XorBits(n, a, b), i) == (Bit(a, i) + Bit(b, i)) % 2
  {
    var q, bit := XorBits(n - 1, a / 2, b / 2), (a % 2 + b % 2) % 2;
    assert XorBits(n, a, b) == bit + 2 * q;
    SplitBit(bit, q);
    if i > 0 {
      XorBitsBit(n - 1, a / 2, b / 2, i - 1);
    }
  }

  /** A bit of the combination is set exactly when it is set in one byte and not in the other. */
  lemma XorIsBitwise(a: byte, b: byte, i: nat)
    requires i < 8
    ensures Bit(Xor(a, b), i) == 1 <==> Bit(a, i) != Bit(b, i)
  {
    XorBitsBit(8, a, b, i);
    BitIsBit(a, i);
    BitIsBit(b, i);
  }

  lemma {:induction false} BitIsBit(x: int, i: nat)
    ensures 0 <= Bit(x, i) < 2
    decreases i
  {
    if i > 0 {
      BitIsBit(x / 2, i - 1);
    }
  }

  function XorBlock(a: Block, b: Block): Block {
    seq(BLOCK, i requires 0 <= i < BLOCK => Xor(a[i], b[i]))
  }

  lemma XorBlockCancels(a: Block, b: Block)
    ensures XorBlock(XorBlock(a, b), b) == a
  {
    forall i | 0 <= i < BLOCK
      ensures Xor(Xor(a[i], b[i]), b[i]) == a[i]
    {
      assert Pow2(8) == 2 * 2 * Pow2(6) == 256;
      XorCancels(8, a[i], b[i]);
    }
  }

  function Encrypt(s: Suite, key: Digest, iv: Block, data: seq<byte>): (c: seq<byte>)
    requires |data| % BLOCK == 0
    ensures |c| == |data|
    decreases |data|
  {
    if data == [] then []
    else
      var c: Block := s.enc(key, XorBlock(data[..BLOCK], iv));
      c + Encrypt(s, key, c, data[BLOCK..])
  }

  function Decrypt(s: Suite, key: Digest, iv: Block, data: seq<byte>): (p: seq<byte>)
    requires |data| % BLOCK == 0
    ensures |p| == |data|
    decreases |data|
  {
    if data == [] then []
    else
      var c: Block := data[..BLOCK];
      XorBlock(s.dec(key, c), iv) + Decrypt(s, key, c, data[BLOCK..])
  }

  lemma {:induction false} DecryptInvertsEncrypt(s: Suite, key: Digest, iv: Block, data: seq<byte>)
    requires |data| % BLOCK == 0
    ensures Decrypt(s, key, iv, Encrypt(s, key, iv, data)) == data
    decreases |data|
  {
    if data != [] {
      var x := XorBlock(data[..BLOCK], iv);
      var c: Block := s.enc(key, x);
      var out := Encrypt(s, key, iv, data);
      assert out[..BLOCK] == c && out[BLOCK..] == Encrypt(s, key, c, data[BLOCK..]);
      XorBlockCancels(data[..BLOCK], iv);
      assert s.dec(key, s.enc(key, x)) == x;
      DecryptInvertsEncrypt(s, key, c, data[BLOCK..]);
    }
  }

  lemma {:induction false} EncryptInvertsDecrypt(s: Suite, key: Digest, iv: Block, data: seq<byte>)
    requires |data| % BLOCK == 0
    ensures Encrypt(s, key, iv, Decrypt(s, key, iv, data)) == data
    decreases |data|
  {
    if data != [] {
      var c: Block := data[..BLOCK];
      var x: Block := s.dec(key, c);
      var out := Decrypt(s, key, iv, data);
      assert out[..BLOCK] == XorBlock(x, iv) && out[BLOCK..] == Decrypt(s, key, c, data[BLOCK..]);
      XorBlockCancels(x, iv);
      assert s.enc(key, s.dec(key, c)) == c;
      EncryptInvertsDecrypt(s, key, c, data[BLOCK..]);
    }
  }

  method PutBlock(a: array<byte>, at: nat, block: Block)
    requires at + BLOCK <= a.Length
    modifies a
    ensures a[..] == old(a[..at]) + block + old(a[at + BLOCK..])
  {
    for j := 0 to BLOCK
      invariant a[..at] == old(a[..at]) && a[at + j..] == old(a[at + j..])
      invariant a[at..at + j] == block[..j]
    {
      a[at + j] := block[j];
    }
    assert a[..] == a[..at] + a[at..at + BLOCK] + a[at + BLOCK..];
  }

  lemma EncryptStep(s: Suite, key: Digest, prev: Block, todo: seq<byte>, done: seq<byte>)
    requires |todo| % BLOCK == 0 && todo != []
    ensures var c := s.enc(key, XorBlock(todo[..BLOCK], prev));
            done + Encrypt(s, key, prev, todo) == done + c + Encrypt(s, key, c, todo[BLOCK..])
  {
  }

  /** Encrypting a padded buffer over itself, block by block. */
  method CryptBlocksInPlace(s: Suite, key: Digest, iv: Block, ct: array<byte>)
    requires ct.Length % BLOCK == 0
    modifies ct
    ensures ct[..] == Encrypt(s, key, iv, old(ct[..]))
  {
    var prev := iv;
    var i := 0;
    ghost var done: seq<byte>, todo := [], ct[..];
    while i < ct.Length
      invariant 0 <= i <= ct.Length && i % BLOCK == 0
      invariant ct[..i] == done && ct[i..] == todo
      invariant Encrypt(s, key, iv, old(ct[..])) == done + Encrypt(s, key, prev, todo)
    {
      EncryptStep(s, key, prev, todo, done);
      assert ct[i..i + BLOCK] == todo[..BLOCK];
      prev := s.enc(key, XorBlock(ct[i..i + BLOCK], prev));
      assert ct[i + BLOCK..] == todo[BLOCK..];
      PutBlock(ct, i, prev);
      done, todo := done + prev, todo[BLOCK..];
      i := i + BLOCK;
    }
  }

  lemma DecryptStep(s: Suite, key: Digest, prev: Block, todo: seq<byte>, done: seq<byte>)
    requires |todo| % BLOCK == 0 && todo != []
    ensures var c: Block := todo[..BLOCK];
            done + Decrypt(s, key, prev, todo) == done + XorBlock(s.dec(key, c), prev) + Decrypt(s, key, c, todo[BLOCK..])
  {
  }

  /** Decrypting into a second buffer of the same length. */
  method DecryptBlocks(s: Suite, key: Digest, iv: Block, ct: seq<byte>) returns (out: array<byte>)
    requires |ct| % BLOCK == 0
    ensures out[..] == Decrypt(s, key, iv, ct)
  {
    out := new byte[|ct|];
    var prev := iv;
    var i := 0;
    ghost var done: seq<byte>, todo := [], ct;
    while i < |ct|
      invariant 0 <= i <= |ct| && i % BLOCK == 0
      invariant out[..i] == done && ct[i..] == todo && |done| == i
      invariant Decrypt(s, key, iv, ct) == done + Decrypt(s, key, prev, todo)
    {
      DecryptStep(s, key, prev, todo, done);
      var c: Block := ct[i..i + BLOCK];
      assert c == todo[..BLOCK] && ct[i + BLOCK..] == todo[BLOCK..];
      var p := XorBlock(s.dec(key, c), prev);
      PutBlock(out, i, p);
      done, todo := done + p, todo[BLOCK..];
      prev := c;
      i := i + BLOCK;
    }
  }

  /** Block number i of data. */
  function BlockAt(data: seq<byte>, i: nat): Block
    requires BLOCK * (i + 1) <= |data|
  {
    data[BLOCK * i..BLOCK * i + BLOCK]
  }

  /** The equation of the standard: each block is encrypted after being combined with the ciphertext before it. */
  lemma {:induction false} EncryptIsChained(s: Suite, key: Digest, iv: Block, data: seq<byte>, i: nat)
    requires |data| % BLOCK == 0 && BLOCK * (i + 1) <= |data|
    ensures var c := Encrypt(s, key, iv, data);
            BlockAt(c, i) == s.enc(key, XorBlock(BlockAt(data, i), if i == 0 then iv else BlockAt(c, i - 1)))
    decreases i
  {
    var first: Block := s.enc(key, XorBlock(data[..BLOCK], iv));
    var tail := data[BLOCK..];
    var c, rest := Encrypt(s, key, iv, data), Encrypt(s, key, first, tail);
    assert c == first + rest;
    if i > 0 {
      EncryptIsChained(s, key, first, tail, i - 1);
      BlockShifts(first, rest, c, i);
      BlockShifts(data[..BLOCK], tail, data, i);
      if i > 1 {
        BlockShifts(first, rest, c, i - 1);
      }
    }
  }

  lemma BlockShifts(first: Block, rest: seq<byte>, all: seq<byte>, i: nat)
    requires all == first + rest && 0 < i && BLOCK * (i + 1) <= |all|
    ensures BlockAt(all, 0) == first && BlockAt(all, i) == BlockAt(rest, i - 1)
  {
  }
}
