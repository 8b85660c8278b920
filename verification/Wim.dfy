/** Reading a WIM file's XML metadata: the packed resource header and the UTF-16LE text. */
module Wim {
  import opened Bytes

  const MAGIC: seq<byte> := B("MSWIM") + [0, 0, 0]
  const HEADER_LEN: nat := 208
  const XML_RESHDR: nat := 72
  const COMPRESSED: nat := 4
  const XML_CAP: nat := 64 * 1024 * 1024

  const TWO56: nat := 0x100_0000_0000_0000
  const TWO63: nat := 0x8000_0000_0000_0000
  const TWO64: nat := 0x1_0000_0000_0000_0000

  /** The n low bytes of v, least significant first, and the number they stand for. */
  function PutLE(v: nat, n: nat): (b: seq<byte>)
    ensures |b| == n
  {
    if n == 0 then [] else [v % 256] + PutLE(v / 256, n - 1)
  }

  function GetLE(b: seq<byte>): nat {
    if b == [] then 0 else b[0] + 256 * GetLE(b[1..])
  }

  /** Seven bytes of size, one of flags. */
  function Pack(size: nat, flags: byte): nat { size + TWO56 * flags }

  function SizeOf(word: nat): nat { word % TWO56 }

  function FlagsOf(word: nat): nat { word / TWO56 % 256 }

  lemma PackUnpacks(size: nat, flags: byte)
    requires size < TWO56
    ensures SizeOf(Pack(size, flags)) == size && FlagsOf(Pack(size, flags)) == flags && Pack(size, flags) < TWO64
  {
  }

  lemma UnpackPacks(word: nat)
    requires word < TWO64
    ensures SizeOf(word) < TWO56 && FlagsOf(word) < 256 && Pack(SizeOf(word), FlagsOf(word)) == word
  {
  }

  lemma {:induction false} GetInvertsPut(v: nat, n: nat)
    requires v < Pow256(n)
    ensures GetLE(PutLE(v, n)) == v
  {
    if n > 0 {
      GetInvertsPut(v / 256, n - 1);
      assert PutLE(v, n)[1..] == PutLE(v / 256, n - 1);
    }
  }

  /** Eight bytes, lowest first. */
  lemma EightBytesRead(b: seq<byte>)
    requires |b| == 8
    ensures GetLE(b)
         == b[0] as int + 0x100 * b[1] as int + 0x10000 * b[2] as int + 0x1000000 * b[3] as int
         + 0x100000000 * b[4] as int + 0x10000000000 * b[5] as int
         + 0x1000000000000 * b[6] as int + 0x100000000000000 * b[7] as int
  {
    ReadOne(b);
    ReadOne(b[1..]);
    ReadOne(b[2..]);
    ReadOne(b[3..]);
    ReadOne(b[4..]);
    ReadOne(b[5..]);
    ReadOne(b[6..]);
    ReadOne(b[7..]);
    assert b[8..] == [];
  }

  lemma ReadOne(b: seq<byte>)
    requires b != []
    ensures GetLE(b) == b[0] + 256 * GetLE(b[1..])
  {
  }

  function Pow256(n: nat): nat {
    if n == 0 then 1 else 256 * Pow256(n - 1)
  }

  lemma EightBytes()
    ensures Pow256(8) == TWO64
  {
  }

  // ---- UTF-16 (section 2 of RFC 2781) ----

  type Unit = u: int | 0 <= u < 0x10000

  const REPLACEMENT := 0xFFFD

  predicate IsScalar(c: int) { 0 <= c < 0xD800 || 0xE000 <= c < 0x110000 }

  predicate IsHigh(u: Unit) { 0xD800 <= u < 0xDC00 }

  predicate IsLow(u: Unit) { 0xDC00 <= u < 0xE000 }

  /** The code units of one scalar value. */
  function Units(c: int): seq<Unit>
    requires IsScalar(c)
  {
    if c < 0x10000 then [c]
    else [0xD800 + (c - 0x10000) / 0x400, 0xDC00 + (c - 0x10000) % 0x400]
  }

  predicate AllScalars(cs: seq<int>) { forall i :: 0 <= i < |cs| ==> IsScalar(cs[i]) }

  function EncodeUnits(cs: seq<int>): seq<Unit>
    requires AllScalars(cs)
  {
    if cs == [] then [] else Units(cs[0]) + EncodeUnits(cs[1..])
  }

  /** Go's utf16.Decode: a surrogate that is not half of a pair reads as U+FFFD. */
  function DecodeUnits(us: seq<Unit>): seq<int> {
    if us == [] then []
    else if IsHigh(us[0]) && |us| > 1 && IsLow(us[1]) then
      [0x10000 + (us[0] - 0xD800) * 0x400 + (us[1] - 0xDC00)] + DecodeUnits(us[2..])
    else if IsHigh(us[0]) || IsLow(us[0]) then [REPLACEMENT] + DecodeUnits(us[1..])
    else [us[0]] + DecodeUnits(us[1..])
  }

  function UnitBytes(us: seq<Unit>): (b: seq<byte>)
    ensures |b| == 2 * |us|
  {
    if us == [] then [] else [us[0] % 256, us[0] / 256] + UnitBytes(us[1..])
  }

  function UnitOf(lo: byte, hi: byte): Unit { lo + 256 * hi }

  /** Pairs of bytes to code units; an odd last byte is dropped. */
  function BytesUnits(b: seq<byte>): seq<Unit> {
    if |b| < 2 then [] else [UnitOf(b[0], b[1])] + BytesUnits(b[2..])
  }

  const BOM: seq<byte> := [0xFF, 0xFE]

  function StripBom(b: seq<byte>): seq<byte> {
    if BOM <= b then b[2..] else b
  }

  function DecodeUtf16Le(b: seq<byte>): seq<int> {
    DecodeUnits(BytesUnits(StripBom(b)))
  }

  /** The index loop that collects the code units. */
  method DecodeUtf16LeLoop(b: seq<byte>) returns (cs: seq<int>)
    ensures cs == DecodeUtf16Le(b)
  {
    var s := if |b| >= 2 && b[0] == 0xFF && b[1] == 0xFE then b[2..] else b;
    assert s == StripBom(b);
    var us: seq<Unit> := [];
    var i := 0;
    while i + 1 < |s|
      invariant 0 <= i <= |s| && us + BytesUnits(s[i..]) == BytesUnits(s)
    {
      assert s[i..][2..] == s[i + 2..];
      assert us + BytesUnits(s[i..]) == us + [UnitOf(s[i], s[i + 1])] + BytesUnits(s[i + 2..]);
      us := us + [UnitOf(s[i], s[i + 1])];
      i := i + 2;
    }
    assert BytesUnits(s[i..]) == [];
    assert us + [] == us;
    cs := DecodeUnits(us);
  }

  lemma {:induction false} UnitsInvertBytes(us: seq<Unit>)
    ensures BytesUnits(UnitBytes(us)) == us
  {
    if us != [] {
      UnitsInvertBytes(us[1..]);
      assert UnitBytes(us)[2..] == UnitBytes(us[1..]);
    }
  }

  lemma {:induction false} DecodeInvertsUnits(cs: seq<int>)
    requires AllScalars(cs)
    ensures DecodeUnits(EncodeUnits(cs)) == cs
  {
    if cs != [] {
      var rest := EncodeUnits(cs[1..]);
      DecodeInvertsUnits(cs[1..]);
      var us := Units(cs[0]) + rest;
      if cs[0] < 0x10000 {
        assert us[1..] == rest;
      } else {
        assert us[2..] == rest;
      }
      assert cs == [cs[0]] + cs[1..];
    }
  }

  /** With a byte-order mark in front, every sequence of scalar values comes back; without one, exactly those
      that do not themselves begin with U+FEFF. */
  lemma Utf16RoundTrips(cs: seq<int>)
    requires AllScalars(cs)
    ensures DecodeUtf16Le(BOM + UnitBytes(EncodeUnits(cs))) == cs
    ensures DecodeUtf16Le(UnitBytes(EncodeUnits(cs))) == cs <==> cs == [] || cs[0] != 0xFEFF
  {
    var b := UnitBytes(EncodeUnits(cs));
    UnitsInvertBytes(EncodeUnits(cs));
    DecodeInvertsUnits(cs);
    assert (BOM + b)[2..] == b;
    if cs != [] {
      var us := EncodeUnits(cs);
      assert b == [us[0] % 256, us[0] / 256] + UnitBytes(us[1..]);
      assert us[0] == Units(cs[0])[0];
      assert BOM <= b <==> us[0] == 0xFEFF;
      if cs[0] == 0xFEFF {
        var rest := cs[1..];
        assert us[1..] == EncodeUnits(rest);
        assert b[2..] == UnitBytes(EncodeUnits(rest));
        UnitsInvertBytes(EncodeUnits(rest));
        DecodeInvertsUnits(rest);
        assert |rest| < |cs|;
      }
    }
  }

  /** Whatever the units, only scalar values come out, and a surrogate that is not half of a pair is U+FFFD. */
  lemma {:induction false} OnlyScalarsComeOut(us: seq<Unit>)
    ensures AllScalars(DecodeUnits(us))
    decreases |us|
  {
    if us != [] {
      OnlyScalarsComeOut(us[1..]);
      if |us| > 1 {
        OnlyScalarsComeOut(us[2..]);
      }
    }
  }

  lemma LoneSurrogates(u: Unit, w: Unit, rest: seq<Unit>)
    requires 0xD800 <= u < 0xE000
    ensures DecodeUnits([u]) == [0xFFFD]
    ensures u >= 0xDC00 || !(0xDC00 <= w < 0xE000) ==> DecodeUnits([u, w] + rest) == [0xFFFD] + DecodeUnits([w] + rest)
    ensures u < 0xDC00 && 0xDC00 <= w < 0xE000 ==>
              DecodeUnits([u, w] + rest) == [0x10000 + (u - 0xD800) * 0x400 + (w - 0xDC00)] + DecodeUnits(rest)
  {
    assert ([u, w] + rest)[1..] == [w] + rest && ([u, w] + rest)[2..] == rest;
    assert [u][1..] == [];
  }

  /** An odd last byte is dropped. */
  lemma {:induction false} OddByteDropped(b: seq<byte>, x: byte)
    requires |b| % 2 == 0
    ensures BytesUnits(b + [x]) == BytesUnits(b)
    decreases |b|
  {
    if b != [] {
      assert (b + [x])[2..] == b[2..] + [x];
      OddByteDropped(b[2..], x);
    }
  }

  // ---- the file ----

  /** wimXML of a file's bytes: the metadata text, or an error. */
  function WimXml(file: seq<byte>): Result<seq<int>> {
    if |file| < HEADER_LEN || file[..8] != MAGIC then Err
    else
      var word := GetLE(file[XML_RESHDR..XML_RESHDR + 8]);
      var offset := GetLE(file[XML_RESHDR + 8..XML_RESHDR + 16]);
      var size := SizeOf(word);
      if FlagsOf(word) / COMPRESSED % 2 == 1 then Err
      else if size == 0 || size > XML_CAP then Err
      else if offset >= TWO63 || offset + size > |file| then Err
      else Ok(DecodeUtf16Le(file[offset..offset + size]))
  }

  /** By the offsets of the format: the magic first, at 72 seven bytes of size and one of flags, at 80 the offset of the
      text. Anything else is refused: a short file, another magic, the compression flag, no size or one over 64 MiB, or
      text that does not lie inside the file. */
  lemma WimXmlByOffsets(file: seq<byte>)
    ensures |file| < 208 || file[..8] != B("MSWIM") + [0, 0, 0] ==> WimXml(file) == Err
    ensures |file| >= 208 && file[..8] == B("MSWIM") + [0, 0, 0] ==>
              var (size, offset) := (GetLE(file[72..80]) % 0x100_0000_0000_0000, GetLE(file[80..88]));
              var flags := GetLE(file[72..80]) / 0x100_0000_0000_0000;
              WimXml(file) == if flags / 4 % 2 == 0 && 0 < size <= 67108864 && offset + size <= |file| && offset < TWO63
                              then Ok(DecodeUtf16Le(file[offset..offset + size])) else Err
  {
    if |file| >= 208 {
      EightBytesRead(file[72..80]);
      FlagsAreByte(GetLE(file[72..80]));
    }
  }

  lemma FlagsAreByte(word: nat)
    requires word < TWO64
    ensures FlagsOf(word) == word / TWO56
  {
  }

  /** The seventh byte is the highest of the size, the eighth the flags. */
  lemma ReshdrBytes(b: seq<byte>)
    requires |b| == 8
    ensures FlagsOf(GetLE(b)) == b[7] && SizeOf(GetLE(b)) == GetLE(b[..7])
  {
    EightBytesRead(b);
    SevenBytesRead(b[..7]);
    assert forall i :: 0 <= i < 7 ==> b[..7][i] == b[i];
    assert GetLE(b) == GetLE(b[..7]) + TWO56 * b[7] as int;
    assert GetLE(b[..7]) < TWO56;
  }

  lemma SevenBytesRead(b: seq<byte>)
    requires |b| == 7
    ensures GetLE(b)
         == b[0] as int + 0x100 * b[1] as int + 0x10000 * b[2] as int + 0x1000000 * b[3] as int
         + 0x100000000 * b[4] as int + 0x10000000000 * b[5] as int + 0x1000000000000 * b[6] as int
  {
    ReadOne(b);
    ReadOne(b[1..]);
    ReadOne(b[2..]);
    ReadOne(b[3..]);
    ReadOne(b[4..]);
    ReadOne(b[5..]);
    ReadOne(b[6..]);
    assert b[7..] == [];
  }

  /** A header says where the text is: magic, then any bytes, then the resource entry, then any bytes. */
  function Header(size: nat, flags: byte, offset: nat, before: seq<byte>, after: seq<byte>): seq<byte> {
    MAGIC + before + PutLE(Pack(size, flags), 8) + PutLE(offset, 8) + after
  }

  lemma HeaderSlices(before: seq<byte>, w: seq<byte>, o: seq<byte>, after: seq<byte>,
                     gap: seq<byte>, text: seq<byte>, tail: seq<byte>)
    requires |before| == XML_RESHDR - 8 && |w| == |o| == 8 && |after| == HEADER_LEN - XML_RESHDR - 16
    ensures var file := MAGIC + before + w + o + after + gap + text + tail;
            var at := HEADER_LEN + |gap|;
            && |file| >= at + |text| && file[..8] == MAGIC
            && file[XML_RESHDR..XML_RESHDR + 8] == w && file[XML_RESHDR + 8..XML_RESHDR + 16] == o
            && file[at..at + |text|] == text
  {
  }

  /** Whatever else a WIM file holds and wherever its metadata lies, the text written into it is read back,
      exactly when it is neither flagged as compressed nor over 64 MiB. */
  lemma WimTextIsFound(cs: seq<int>, flags: byte, before: seq<byte>, after: seq<byte>, gap: seq<byte>, tail: seq<byte>)
    requires AllScalars(cs) && |before| == XML_RESHDR - 8 && |after| == HEADER_LEN - XML_RESHDR - 16
    requires |UnitBytes(EncodeUnits(cs))| + 2 < TWO56 && HEADER_LEN + |gap| < TWO63
    ensures var text := BOM + UnitBytes(EncodeUnits(cs));
            var file := Header(|text|, flags, HEADER_LEN + |gap|, before, after) + gap + text + tail;
            WimXml(file) == if flags / COMPRESSED % 2 == 0 && |text| <= XML_CAP then Ok(cs) else Err
  {
    var text := BOM + UnitBytes(EncodeUnits(cs));
    var offset := HEADER_LEN + |gap|;
    var word := Pack(|text|, flags);
    PackUnpacks(|text|, flags);
    EightBytes();
    GetInvertsPut(word, 8);
    GetInvertsPut(offset, 8);
    HeaderSlices(before, PutLE(word, 8), PutLE(offset, 8), after, gap, text, tail);
    Utf16RoundTrips(cs);
  }

  /** The byte-order mark is U+FEFF written low byte first, and the example of section 3 of RFC 2781. */
  lemma StandardExamples()
    ensures UnitBytes([0xFEFF]) == BOM
    ensures Units(0x12345) == [0xD808, 0xDF45] && DecodeUnits([0xD808, 0xDF45]) == [0x12345]
  {
  }
}
