/** The "enc:v1:" envelope: the admin's encoder and decoder and the API's own decoder. */
module Envelope {
  import opened Bytes
  import opened Padding
  import opened Cbc
  import Base64

  const ENC_PREFIX: seq<byte> := B("enc:v1:")
  const TAG := 32

  predicate IsEncrypted(t: seq<byte>) {
    ENC_PREFIX <= t
  }

  function EncKey(s: Suite, master: seq<byte>): Digest { s.hmac(master, B("enc")) }

  function MacKey(s: Suite, master: seq<byte>): Digest { s.hmac(master, B("mac")) }

  /** iv || ciphertext || hmac */
  function Seal(s: Suite, master: seq<byte>, iv: Block, plain: seq<byte>): seq<byte> {
    var body := iv + Encrypt(s, EncKey(s, master), iv, Pad(plain));
    body + s.hmac(MacKey(s, master), body)
  }

  /** What encryptSecret returns; iv is None when the random source fails. */
  function EncryptSecret(s: Suite, master: Option<seq<byte>>, iv: Option<Block>, plain: seq<byte>): Result<seq<byte>> {
    if master.None? || plain == [] || IsEncrypted(plain) then Ok(plain)
    else if iv.None? then Err
    else Ok(ENC_PREFIX + Base64.Encode(Seal(s, master.value, iv.value, plain)))
  }

  function OpenBlob(s: Suite, master: seq<byte>, blob: seq<byte>): Result<seq<byte>> {
    if |blob| < BLOCK + TAG then Err
    else
      var macAt := |blob| - TAG;
      var ct := blob[BLOCK..macAt];
      if s.hmac(MacKey(s, master), blob[..macAt]) != blob[macAt..] then Err
      else if |ct| % BLOCK != 0 then Err
      else Unpad(Decrypt(s, EncKey(s, master), blob[..BLOCK], ct))
  }

  function DecryptSecret(s: Suite, master: Option<seq<byte>>, t: seq<byte>): Result<seq<byte>> {
    if !IsEncrypted(t) then Ok(t)
    else if master.None? then Err
    else
      match Base64.Decode(t[|ENC_PREFIX|..])
      case Err => Err
      case Ok(blob) => OpenBlob(s, master.value, blob)
  }

  /** Byte for byte: the IV, the ciphertext under the key labelled "enc", and the MAC of both under the key labelled
      "mac". */
  lemma EnvelopeLayout(s: Suite, master: seq<byte>, iv: Block, plain: seq<byte>)
    requires plain != [] && !(B("enc:v1:") <= plain)
    ensures var body := iv + Encrypt(s, s.hmac(master, B("enc")), iv, Pad(plain));
            EncryptSecret(s, Some(master), Some(iv), plain)
            == Ok(B("enc:v1:") + Base64.Encode(body + s.hmac(s.hmac(master, B("mac")), body)))
  {
  }

  /** What a decoder must find before it decrypts: room for an IV and a MAC, and the right MAC of everything before it,
      the IV included. */
  lemma OpenedBlobIs(s: Suite, master: seq<byte>, blob: seq<byte>)
    ensures OpenBlob(s, master, blob).Ok? ==>
              && |blob| >= 48 && |blob| % 16 == 0
              && blob[|blob| - 32..] == s.hmac(s.hmac(master, B("mac")), blob[..|blob| - 32])
              && OpenBlob(s, master, blob) == Unpad(Decrypt(s, s.hmac(master, B("enc")), blob[..16], blob[16..|blob| - 32]))
  {
  }

  /** A value without the prefix is returned as it is; with it, nothing is returned without a key or a blob that opens. */
  lemma DecryptedValueIs(s: Suite, master: Option<seq<byte>>, t: seq<byte>)
    ensures !(B("enc:v1:") <= t) ==> DecryptSecret(s, master, t) == Ok(t)
    ensures B("enc:v1:") <= t && DecryptSecret(s, master, t).Ok? ==>
              && master.Some? && Base64.Decode(t[7..]).Ok?
              && DecryptSecret(s, master, t) == OpenBlob(s, master.value, Base64.Decode(t[7..]).value)
  {
  }

  /** A blob opens to p exactly when it is the sealing of p under its own leading IV. */
  lemma OpenInvertsSeal(s: Suite, master: seq<byte>, blob: seq<byte>, p: seq<byte>)
    ensures OpenBlob(s, master, blob) == Ok(p) <==>
            |blob| >= BLOCK && blob == Seal(s, master, blob[..BLOCK], p)
  {
    var key := EncKey(s, master);
    UnpadInvertsPad([], p);
    if |blob| >= BLOCK {
      var iv: Block := blob[..BLOCK];
      if blob == Seal(s, master, iv, p) {
        var ct := Encrypt(s, key, iv, Pad(p));
        var tag := s.hmac(MacKey(s, master), iv + ct);
        assert blob == iv + ct + tag;
        var macAt := |blob| - TAG;
        assert blob[..macAt] == iv + ct && blob[macAt..] == tag && blob[BLOCK..macAt] == ct;
        DecryptInvertsEncrypt(s, key, iv, Pad(p));
        UnpadInvertsPad(Pad(p), p);
      }
      if OpenBlob(s, master, blob) == Ok(p) {
        var macAt := |blob| - TAG;
        var ct := blob[BLOCK..macAt];
        UnpadInvertsPad(Decrypt(s, key, iv, ct), p);
        EncryptInvertsDecrypt(s, key, iv, ct);
        assert iv + ct == blob[..macAt];
        assert blob == blob[..macAt] + blob[macAt..];
      }
    }
  }

  /** An accepted envelope is strictly longer than the secret inside it. */
  lemma PlainIsShorter(s: Suite, master: Option<seq<byte>>, t: seq<byte>)
    requires IsEncrypted(t) && DecryptSecret(s, master, t).Ok?
    ensures |DecryptSecret(s, master, t).value| < |t|
  {
  }

  /** Whatever encryptSecret stores, decryptSecret returns the secret exactly when it was not itself an envelope. */
  lemma DecryptInvertsEncryptSecret(s: Suite, master: Option<seq<byte>>, iv: Option<Block>, plain: seq<byte>)
    requires EncryptSecret(s, master, iv, plain).Ok?
    ensures var stored := EncryptSecret(s, master, iv, plain).value;
            && (DecryptSecret(s, master, stored) == Ok(plain) <==> !IsEncrypted(plain))
            && EncryptSecret(s, master, iv, stored) == Ok(stored)
            && (stored == [] <==> plain == [])
  {
    var stored := EncryptSecret(s, master, iv, plain).value;
    if IsEncrypted(plain) {
      if DecryptSecret(s, master, plain) == Ok(plain) {
        PlainIsShorter(s, master, plain);
      }
    } else if master.Some? && plain != [] {
      var blob := Seal(s, master.value, iv.value, plain);
      assert stored == ENC_PREFIX + Base64.Encode(blob);
      assert stored[|ENC_PREFIX|..] == Base64.Encode(blob);
      Base64.DecodeInvertsEncode(blob);
      UnpadInvertsPad([], plain);
      assert blob[..BLOCK] == iv.value;
      OpenInvertsSeal(s, master.value, blob, plain);
    }
  }

  /** The admin's encoder, step by step: pad, encrypt the buffer over itself, MAC, encode. */
  method EncryptSecretInPlace(s: Suite, master: Option<seq<byte>>, iv: Option<Block>, plain: seq<byte>)
    returns (r: Result<seq<byte>>)
    ensures r == EncryptSecret(s, master, iv, plain)
    ensures (master.None? || plain == [] || B("enc:v1:") <= plain) ==> r == Ok(plain)
    ensures master.Some? && plain != [] && !(B("enc:v1:") <= plain) ==>
              if iv.None? then r == Err
              else
                var body := iv.value + Encrypt(s, s.hmac(master.value, B("enc")), iv.value, Pad(plain));
                r == Ok(B("enc:v1:") + Base64.Encode(body + s.hmac(s.hmac(master.value, B("mac")), body)))
  {
    if master.None? || plain == [] || IsEncrypted(plain) {
      return Ok(plain);
    }
    if iv.None? {
      return Err;
    }
    var padded := Pkcs7Pad(plain);
    UnpadInvertsPad(padded, plain);
    var ct := new byte[|padded|](i requires 0 <= i < |padded| => padded[i]);
    assert ct[..] == padded;
    CryptBlocksInPlace(s, EncKey(s, master.value), iv.value, ct);
    var blob := iv.value + ct[..];
    blob := blob + s.hmac(MacKey(s, master.value), blob);
    r := Ok(ENC_PREFIX + Base64.Encode(blob));
  }

  /** The API's decoder, written separately from the admin's, computes the same function. */
  method ApiDecryptSecret(s: Suite, master: Option<seq<byte>>, t: seq<byte>) returns (r: Result<seq<byte>>)
    ensures r == DecryptSecret(s, master, t)
  {
    if !IsEncrypted(t) {
      return Ok(t);
    }
    if master.None? {
      return Err;
    }
    var decoded := Base64.Decode(t[|ENC_PREFIX|..]);
    if decoded.Err? {
      return Err;
    }
    var blob := decoded.value;
    if |blob| < BLOCK + TAG {
      return Err;
    }
    var macAt := |blob| - TAG;
    var iv, ct, tag := blob[..BLOCK], blob[BLOCK..macAt], blob[macAt..];
    if s.hmac(MacKey(s, master.value), blob[..macAt]) != tag {
      return Err;
    }
    if |ct| % BLOCK != 0 {
      return Err;
    }
    var out := DecryptBlocks(s, EncKey(s, master.value), iv, ct);
    r := ApiUnpad(out[..]);
  }

  /** The API's unpadding loop, which stops at the first wrong padding byte. */
  method ApiUnpad(b: seq<byte>) returns (r: Result<seq<byte>>)
    ensures r == Unpad(b)
  {
    if |b| == 0 || |b| % BLOCK != 0 {
      return Err;
    }
    var n := b[|b| - 1];
    if n == 0 || n > BLOCK || n > |b| {
      return Err;
    }
    for i := |b| - n to |b|
      invariant forall j :: |b| - n <= j < i ==> b[j] == n
    {
      if b[i] != n {
        return Err;
      }
    }
    r := Ok(b[..|b| - n]);
  }
}
