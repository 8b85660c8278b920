/** Standard base64 (section 4 of RFC 4648) as Go's StdEncoding reads and writes it. */
module Base64 {
  import opened Bytes

  const PAD: byte := 61

  type Sextet = v: int | 0 <= v < 64

  predicate IsNewline(c: byte) {
    c == 10 || c == 13
  }

  /** An alphabet: 64 characters, none of them the padding character or a newline, and the way back. */
  datatype RawAlphabet = Alphabet(enc: Sextet -> byte, dec: byte -> Option<Sextet>)

  ghost predicate Inverse(a: RawAlphabet) {
    && (forall v: Sextet :: a.dec(a.enc(v)) == Some(v) && a.enc(v) != PAD && !IsNewline(a.enc(v)))
    && (forall c: byte :: a.dec(c).Some? ==> a.enc(a.dec(c).value) == c)
    && a.dec(PAD).None?
  }

  type Alphabet = a: RawAlphabet | Inverse(a) ghost witness StandardAlphabet()

  function EncChar(v: Sextet): byte {
    if v < 26 then 65 + v
    else if v < 52 then 71 + v
    else if v < 62 then v - 4
    else if v == 62 then 43
    else 47
  }

  function DecChar(c: byte): Option<Sextet> {
    if 65 <= c <= 90 then Some(c - 65)
    else if 97 <= c <= 122 then Some(c - 71)
    else if 48 <= c <= 57 then Some(c + 4)
    else if c == 43 then Some(62)
    else if c == 47 then Some(63)
    else None
  }

  function StandardAlphabet(): (a: RawAlphabet)
    ensures Inverse(a)
  {
    EncThenDec();
    DecThenEnc();
    Alphabet(v => EncChar(v), c => DecChar(c))
  }

  lemma EncThenDec()
    ensures forall v: Sextet :: DecChar(EncChar(v)) == Some(v) && EncChar(v) != PAD && !IsNewline(EncChar(v))
  {
  }

  lemma DecThenEnc()
    ensures forall c: byte :: DecChar(c).Some? ==> EncChar(DecChar(c).value) == c
  {
  }

  predicate NewlineFree(s: seq<byte>) {
    forall c | c in s :: !IsNewline(c)
  }

  // ---- three bytes as four sextets ----

  function Sextet0(x: byte): Sextet { x / 4 }

  function Sextet1(x: byte, y: byte): Sextet { x % 4 * 16 + y / 16 }

  function Sextet2(y: byte, z: byte): Sextet { y % 16 * 4 + z / 64 }

  function Sextet3(z: byte): Sextet { z % 64 }

  function Byte0(v0: Sextet, v1: Sextet): byte { v0 * 4 + v1 / 16 }

  function Byte1(v1: Sextet, v2: Sextet): byte { v1 % 16 * 16 + v2 / 4 }

  function Byte2(v2: Sextet, v3: Sextet): byte { v2 % 4 * 64 + v3 }

  lemma SplitBytes(x: byte, y: byte, z: byte)
    ensures Byte0(Sextet0(x), Sextet1(x, y)) == x
    ensures Byte1(Sextet1(x, y), Sextet2(y, z)) == y
    ensures Byte2(Sextet2(y, z), Sextet3(z)) == z
  {
  }

  lemma JoinSextets(v0: Sextet, v1: Sextet, v2: Sextet, v3: Sextet)
    ensures Sextet0(Byte0(v0, v1)) == v0 && Sextet1(Byte0(v0, v1), Byte1(v1, v2)) == v1
    ensures Sextet2(Byte1(v1, v2), Byte2(v2, v3)) == v2 && Sextet3(Byte2(v2, v3)) == v3
  {
  }

  /** Three bytes and four sextets spell the same 24-bit number, highest first. */
  lemma SameBits(x: byte, y: byte, z: byte)
    ensures (x * 0x10000 + y * 0x100 + z)
         == Sextet0(x) * 0x40000 + Sextet1(x, y) * 0x1000 + Sextet2(y, z) * 0x40 + Sextet3(z)
  {
  }

  /** The alphabet of section 4 of RFC 4648. */
  lemma AlphabetIs(v: Sextet)
    ensures v < 26 ==> EncChar(v) == 'A' as int + v
    ensures 26 <= v < 52 ==> EncChar(v) == 'a' as int + (v - 26)
    ensures 52 <= v < 62 ==> EncChar(v) == '0' as int + (v - 52)
    ensures v == 62 ==> EncChar(v) == '+' as int
    ensures v == 63 ==> EncChar(v) == '/' as int
    ensures PAD == '=' as int
  {
  }

  /** The bits of the last sextet that no byte holds come back as zero. */
  lemma SpareBits(v0: Sextet, v1: Sextet, v2: Sextet)
    ensures Sextet1(Byte0(v0, v1), 0) == v1 <==> v1 % 16 == 0
    ensures Sextet2(Byte1(v1, v2), 0) == v2 <==> v2 % 4 == 0
  {
    LowPart(v0, v1 / 16, 4);
    LowPart(v1 % 16, v2 / 4, 16);
  }

  lemma LowPart(high: nat, low: nat, n: nat)
    requires low < n && (n == 4 || n == 16)
    ensures (high * n + low) % n == low
  {
  }

  // ---- encoding and decoding ----

  function EncodeQuantum(a: Alphabet, x: byte, y: byte, z: byte): (q: seq<byte>)
    ensures |q| == 4 && NewlineFree(q)
  {
    [a.enc(Sextet0(x)), a.enc(Sextet1(x, y)), a.enc(Sextet2(y, z)), a.enc(Sextet3(z))]
  }

  function EncodeWith(a: Alphabet, b: seq<byte>): (s: seq<byte>)
    ensures NewlineFree(s)
    decreases |b|
  {
    if |b| == 0 then []
    else if |b| == 1 then [a.enc(Sextet0(b[0])), a.enc(Sextet1(b[0], 0)), PAD, PAD]
    else if |b| == 2 then [a.enc(Sextet0(b[0])), a.enc(Sextet1(b[0], b[1])), a.enc(Sextet2(b[1], 0)), PAD]
    else EncodeQuantum(a, b[0], b[1], b[2]) + EncodeWith(a, b[3..])
  }

  /** Go skips carriage returns and line feeds wherever they stand. */
  function SkipNewlines(s: seq<byte>): (r: seq<byte>)
    ensures |r| <= |s|
  {
    if s == [] then []
    else if IsNewline(s[0]) then SkipNewlines(s[1..])
    else [s[0]] + SkipNewlines(s[1..])
  }

  /** A last quantum may end in one or two padding characters; its spare bits are not checked. */
  function DecodeLast(a: Alphabet, s: seq<byte>): (r: Result<seq<byte>>)
    requires |s| == 4
    ensures r.Ok? ==> 1 <= |r.value| <= 3
  {
    if a.dec(s[0]).None? || a.dec(s[1]).None? then Err
    else
      var v0, v1 := a.dec(s[0]).value, a.dec(s[1]).value;
      if a.dec(s[2]).None? then (if s[2] == PAD && s[3] == PAD then Ok([Byte0(v0, v1)]) else Err)
      else
        var v2 := a.dec(s[2]).value;
        if a.dec(s[3]).None? then (if s[3] == PAD then Ok([Byte0(v0, v1), Byte1(v1, v2)]) else Err)
        else Ok([Byte0(v0, v1), Byte1(v1, v2), Byte2(v2, a.dec(s[3]).value)])
  }

  function DecodeQuanta(a: Alphabet, s: seq<byte>): (r: Result<seq<byte>>)
    ensures r.Ok? ==> |r.value| <= |s|
    decreases |s|
  {
    if s == [] then Ok([])
    else if |s| < 4 then Err
    else if |s| == 4 then DecodeLast(a, s)
    else
      var first, rest := DecodeLast(a, s[..4]), DecodeQuanta(a, s[4..]);
      if first.Err? || |first.value| < 3 || rest.Err? then Err else Ok(first.value + rest.value)
  }

  function Encode(b: seq<byte>): seq<byte> {
    EncodeWith(StandardAlphabet(), b)
  }

  function Decode(s: seq<byte>): (r: Result<seq<byte>>)
    ensures r.Ok? ==> |r.value| <= |s|
  {
    DecodeQuanta(StandardAlphabet(), SkipNewlines(s))
  }

  // ---- decoding undoes encoding ----

  lemma {:induction false} SkipNewlinesIdentity(s: seq<byte>)
    ensures SkipNewlines(s) == s <==> NewlineFree(s)
  {
    if s != [] {
      SkipNewlinesIdentity(s[1..]);
      assert s == [s[0]] + s[1..];
      if !IsNewline(s[0]) {
        assert SkipNewlines(s)[1..] == SkipNewlines(s[1..]);
      }
    }
  }

  lemma {:induction false} NewlineSkipped(x: seq<byte>, c: byte, y: seq<byte>)
    requires c == 10 || c == 13
    ensures SkipNewlines(x + [c] + y) == SkipNewlines(x + y)
  {
    if x == [] {
      assert x + [c] + y == [c] + y && x + y == y;
    } else {
      NewlineSkipped(x[1..], c, y);
      assert (x + [c] + y)[1..] == x[1..] + [c] + y && (x + y)[1..] == x[1..] + y;
    }
  }

  /** A line end makes no difference to what a text decodes to. */
  lemma NewlinesDoNotMatter(x: seq<byte>, c: byte, y: seq<byte>)
    requires c == 10 || c == 13
    ensures Decode(x + [c] + y) == Decode(x + y)
  {
    NewlineSkipped(x, c, y);
  }

  /** Whole quanta of letters of the alphabet, the last one or two of which may be padding instead. */
  ghost predicate Padded(a: Alphabet, t: seq<byte>, p: nat) {
    && |t| % 4 == 0 && p <= 2 && p <= |t|
    && (forall i :: 0 <= i < |t| - p ==> a.dec(t[i]).Some?)
    && (forall i :: |t| - p <= i < |t| ==> t[i] == PAD)
  }

  lemma {:induction false} DecodesExactly(a: Alphabet, t: seq<byte>)
    ensures DecodeQuanta(a, t).Ok? <==> exists p :: Padded(a, t, p)
    decreases |t|
  {
    if |t| < 4 {
      assert Padded(a, t, 0) <==> t == [];
    } else if |t| == 4 {
      assert DecodeQuanta(a, t).Ok? ==> Padded(a, t, 0) || Padded(a, t, 1) || Padded(a, t, 2);
    } else {
      DecodesExactly(a, t[4..]);
      FirstQuantum(a, t);
    }
  }

  lemma FirstQuantum(a: Alphabet, t: seq<byte>)
    requires |t| > 4
    ensures (exists p :: Padded(a, t, p)) <==>
            DecodeLast(a, t[..4]).Ok? && |DecodeLast(a, t[..4]).value| == 3 && exists p :: Padded(a, t[4..], p)
  {
    var more := t[4..];
    if p :| Padded(a, t, p) {
      assert |more| >= 4 && |t| - p >= 6;
      assert forall i :: 0 <= i < |more| ==> more[i] == t[i + 4];
      assert Padded(a, more, p);
    }
    if DecodeLast(a, t[..4]).Ok? && |DecodeLast(a, t[..4]).value| == 3 {
      if p :| Padded(a, more, p) {
        assert forall i :: 4 <= i < |t| ==> t[i] == more[i - 4];
        assert Padded(a, t, p);
      }
    }
  }

  /** Which texts decode at all: without line ends, whole quanta of the alphabet, padded at the very end. */
  lemma AcceptedTexts(s: seq<byte>)
    requires 10 !in s && 13 !in s
    ensures Decode(s).Ok? <==> exists p :: Padded(StandardAlphabet(), s, p)
  {
    SkipNewlinesIdentity(s);
    DecodesExactly(StandardAlphabet(), s);
  }

  lemma DecodeTwo(a: Alphabet, v0: Sextet, v1: Sextet)
    ensures DecodeLast(a, [a.enc(v0), a.enc(v1), PAD, PAD]) == Ok([Byte0(v0, v1)])
  {
  }

  lemma DecodeThree(a: Alphabet, v0: Sextet, v1: Sextet, v2: Sextet)
    ensures DecodeLast(a, [a.enc(v0), a.enc(v1), a.enc(v2), PAD]) == Ok([Byte0(v0, v1), Byte1(v1, v2)])
  {
  }

  lemma DecodeFour(a: Alphabet, v0: Sextet, v1: Sextet, v2: Sextet, v3: Sextet)
    ensures DecodeLast(a, [a.enc(v0), a.enc(v1), a.enc(v2), a.enc(v3)]) == Ok([Byte0(v0, v1), Byte1(v1, v2), Byte2(v2, v3)])
  {
  }

  lemma ThreeBytes(a: Alphabet, x: byte, y: byte, z: byte)
    ensures DecodeLast(a, EncodeQuantum(a, x, y, z)) == Ok([x, y, z])
  {
    SplitBytes(x, y, z);
    DecodeFour(a, Sextet0(x), Sextet1(x, y), Sextet2(y, z), Sextet3(z));
  }

  lemma OneByte(a: Alphabet, x: byte)
    ensures DecodeQuanta(a, EncodeWith(a, [x])) == Ok([x])
  {
    var v0, v1 := Sextet0(x), Sextet1(x, 0);
    DecodeTwo(a, v0, v1);
    assert EncodeWith(a, [x]) == [a.enc(v0), a.enc(v1), PAD, PAD];
    SplitBytes(x, 0, 0);
  }

  lemma TwoBytes(a: Alphabet, x: byte, y: byte)
    ensures DecodeQuanta(a, EncodeWith(a, [x, y])) == Ok([x, y])
  {
    var v0, v1, v2 := Sextet0(x), Sextet1(x, y), Sextet2(y, 0);
    DecodeThree(a, v0, v1, v2);
    assert EncodeWith(a, [x, y]) == [a.enc(v0), a.enc(v1), a.enc(v2), PAD];
    SplitBytes(x, y, 0);
  }

  lemma DecodeQuantumFirst(a: Alphabet, q: seq<byte>, first: seq<byte>, rest: seq<byte>)
    requires |q| == 4 && DecodeLast(a, q) == Ok(first) && |first| == 3 && DecodeQuanta(a, rest).Ok?
    ensures DecodeQuanta(a, q + rest) == Ok(first + DecodeQuanta(a, rest).value)
  {
    assert (q + rest)[..4] == q && (q + rest)[4..] == rest;
    if rest == [] {
      assert q + rest == q && first + [] == first;
    }
  }

  lemma {:induction false} QuantaInvertEncode(a: Alphabet, b: seq<byte>)
    ensures DecodeQuanta(a, EncodeWith(a, b)) == Ok(b)
    decreases |b|
  {
    if |b| == 1 {
      OneByte(a, b[0]);
      assert b == [b[0]];
    } else if |b| == 2 {
      TwoBytes(a, b[0], b[1]);
      assert b == [b[0], b[1]];
    } else if |b| > 2 {
      QuantaInvertEncode(a, b[3..]);
      ThreeBytes(a, b[0], b[1], b[2]);
      DecodeQuantumFirst(a, EncodeQuantum(a, b[0], b[1], b[2]), [b[0], b[1], b[2]], EncodeWith(a, b[3..]));
      assert b == [b[0], b[1], b[2]] + b[3..];
    }
  }

  lemma DecodeInvertsEncode(b: seq<byte>)
    ensures Decode(Encode(b)) == Ok(b)
  {
    QuantaInvertEncode(StandardAlphabet(), b);
    SkipNewlinesIdentity(Encode(b));
  }

  // ---- how far encoding undoes decoding ----

  /** The bits of the last sextet that no decoded byte holds. */
  predicate SpareBitsZero(a: Alphabet, s: seq<byte>) {
    var n := |s|;
    n >= 4 && s[n - 1] == PAD ==>
      if s[n - 2] == PAD then a.dec(s[n - 3]).Some? ==> a.dec(s[n - 3]).value % 16 == 0
      else a.dec(s[n - 2]).Some? ==> a.dec(s[n - 2]).value % 4 == 0
  }

  lemma ReencodeLast(a: Alphabet, s: seq<byte>)
    requires |s| == 4 && DecodeLast(a, s).Ok?
    ensures EncodeWith(a, DecodeLast(a, s).value) == s <==> SpareBitsZero(a, s)
    ensures |DecodeLast(a, s).value| == 3 ==> s[3] != PAD
  {
    var b := DecodeLast(a, s).value;
    assert s == [s[0], s[1], s[2], s[3]];
    var (v0, v1) := (a.dec(s[0]).value, a.dec(s[1]).value);
    if |b| == 1 {
      SpareBits(v0, v1, 0);
      JoinSextets(v0, v1, 0, 0);
      assert a.enc(Sextet1(b[0], 0)) == s[1] <==> Sextet1(b[0], 0) == v1;
    } else {
      var v2 := a.dec(s[2]).value;
      if |b| == 2 {
        SpareBits(v0, v1, v2);
        JoinSextets(v0, v1, v2, 0);
        assert a.enc(Sextet2(b[1], 0)) == s[2] <==> Sextet2(b[1], 0) == v2;
      } else {
        JoinSextets(v0, v1, v2, a.dec(s[3]).value);
        assert EncodeWith(a, b[3..]) == [];
      }
    }
  }

  lemma EncodeFirst(a: Alphabet, first: seq<byte>, rest: seq<byte>)
    requires |first| == 3
    ensures EncodeWith(a, first + rest) == EncodeWith(a, first) + EncodeWith(a, rest)
    ensures |EncodeWith(a, first)| == 4
  {
  }

  lemma {:induction false} ReencodeQuanta(a: Alphabet, s: seq<byte>)
    requires DecodeQuanta(a, s).Ok?
    ensures EncodeWith(a, DecodeQuanta(a, s).value) == s <==> SpareBitsZero(a, s)
    decreases |s|
  {
    if |s| == 4 {
      ReencodeLast(a, s);
    } else if |s| > 4 {
      var q, more := s[..4], s[4..];
      var first, rest := DecodeLast(a, q).value, DecodeQuanta(a, more).value;
      ReencodeLast(a, q);
      ReencodeQuanta(a, more);
      EncodeFirst(a, first, rest);
      assert EncodeWith(a, first) == q && s == q + more;
      SameEnds(q, EncodeWith(a, rest), more);
      SpareBitsAtEnd(a, q, more);
    }
  }

  lemma SameEnds(q: seq<byte>, x: seq<byte>, y: seq<byte>)
    ensures q + x == q + y <==> x == y
  {
    assert (q + x)[|q|..] == x && (q + y)[|q|..] == y;
  }

  lemma SpareBitsAtEnd(a: Alphabet, q: seq<byte>, more: seq<byte>)
    requires |more| >= 4
    ensures SpareBitsZero(a, q + more) <==> SpareBitsZero(a, more)
  {
    var (s, n, m) := (q + more, |q + more|, |more|);
    assert s[n - 1] == more[m - 1] && s[n - 2] == more[m - 2] && s[n - 3] == more[m - 3];
  }

  /** Decoding is lenient: re-encoding gives the text back exactly when it held no newline and no spare bits. */
  lemma ReencodeExactly(s: seq<byte>)
    requires Decode(s).Ok?
    ensures Encode(Decode(s).value) == s <==> NewlineFree(s) && SpareBitsZero(StandardAlphabet(), s)
  {
    SkipNewlinesIdentity(s);
    if NewlineFree(s) {
      ReencodeQuanta(StandardAlphabet(), s);
    }
  }

  /** Test vectors of section 10 of RFC 4648: "f", "fo" and "foob". */
  lemma StandardVectors()
    ensures Encode([102]) == B("Zg==")
    ensures Encode([102, 111]) == B("Zm8=")
    ensures Encode([102, 111, 111, 98]) == B("Zm9vYg==")
  {
    assert [102, 111, 111, 98][3..] == [98];
    assert Encode([98]) == B("Yg==");
  }
}
