/** What each file handler does to the disk and answers, as a function of the request and of what went wrong. */
module Handlers {
  import opened Bytes
  import opened Paths
  import opened Volume

  /** A status code and the two protocol headers; None where the header is not set. */
  datatype Reply = Reply(status: nat, offset: Option<nat>, complete: Option<bool>)

  function Plain(status: nat): Reply { Reply(status, None, None) }

  // ---- the integrity sidecar ----

  function HexDigit(n: int): byte
    requires 0 <= n < 16
  {
    if n < 10 then 48 + n else 87 + n
  }

  function Hex(b: seq<byte>): (h: seq<byte>)
    ensures |h| == 2 * |b|
    ensures forall i :: 0 <= i < |h| ==> 48 <= h[i] <= 57 || 97 <= h[i] <= 102
  {
    if b == [] then [] else [HexDigit(b[0] / 16), HexDigit(b[0] % 16)] + Hex(b[1..])
  }

  function Base(p: Path): seq<byte> {
    var segs := Split(p);
    segs[|segs| - 1]
  }

  /** One line in sha256sum's format. */
  function SidecarLine(sum: Digest, dest: Path): seq<byte> {
    Hex(sum) + [32, 32] + Base(dest) + [10]
  }

  predicate IsSpace(c: byte) { 9 <= c <= 13 || c == 32 }

  function SkipSpace(s: seq<byte>): seq<byte> {
    if s != [] && IsSpace(s[0]) then SkipSpace(s[1..]) else s
  }

  function UpToSpace(s: seq<byte>): seq<byte> {
    if s == [] || IsSpace(s[0]) then [] else [s[0]] + UpToSpace(s[1..])
  }

  /** The first white-space separated field of the sidecar; empty when there is none. */
  function ReadSidecar(d: Disk, dest: Path): seq<byte> {
    UpToSpace(SkipSpace(Content(d, Sidecar(dest))))
  }

  datatype SidecarOutcome = Written | NotOpened | CutShort(n: nat)

  function WriteSidecar(d: Disk, dest: Path, sum: Digest, o: SidecarOutcome): Disk {
    var line := SidecarLine(sum, dest);
    if o.NotOpened? || IsDir(d, Sidecar(dest)) then d
    else d[Sidecar(dest) := File(if o.Written? then line else line[..Min(o.n, |line|)])]
  }

  // ---- HEAD ----

  /** Whether each Stat succeeds; one that fails reads as "not there". */
  datatype HeadOutcome = HeadOutcome(statDest: bool, statPart: bool)

  function Head(d: Disk, target: Option<Path>, o: HeadOutcome): Reply {
    if target.None? then Plain(400)
    else
      var dest := target.value;
      if o.statDest && IsFile(d, dest) then Reply(200, Some(StatSize(d, dest)), Some(true))
      else Reply(200, Some(if o.statPart then StatSize(d, Part(dest)) else 0), Some(false))
  }

  // ---- PATCH ----

  /** offset and length are the parsed headers; None when absent or not an integer. */
  datatype PatchReq = PatchReq(target: Option<Path>, offset: Option<int>, length: Option<int>, body: seq<byte>)

  /** What befalls one PATCH: take bytes of the body reach the disk, and of those, if the stream failed,
      uncounted are missing from the count. */
  datatype PatchOutcome = PatchOutcome(
    mkdirOk: bool, statOk: bool, openOk: bool,
    take: nat, uncounted: nat, streamOk: bool,
    hashOk: bool, renameOk: bool, sidecar: SidecarOutcome)

  predicate WellFormed(q: PatchReq) {
    q.target.Some? && q.length.Some? && q.length.value >= 0 && q.offset.Some? && q.offset.value >= 0
  }

  function Staged(d: Disk, q: PatchReq, o: PatchOutcome): nat
    requires WellFormed(q)
  {
    if o.statOk then StatSize(d, Part(q.target.value)) else 0
  }

  /** The bytes that reach the disk. */
  function Landed(d: Disk, q: PatchReq, o: PatchOutcome): seq<byte>
    requires WellFormed(q)
  {
    var body := Capped(q.body, Some(q.length.value - Staged(d, q, o)));
    body[..Min(o.take, |body|)]
  }

  function NewSize(d: Disk, q: PatchReq, o: PatchOutcome): nat
    requires WellFormed(q)
  {
    var n := |Landed(d, q, o)|;
    Staged(d, q, o) + if o.streamOk then n else n - Min(o.uncounted, n)
  }

  predicate Accepted(d: Disk, q: PatchReq, o: PatchOutcome) {
    WellFormed(q) && o.mkdirOk && q.offset.value == Staged(d, q, o) && o.openOk && !IsDir(d, Part(q.target.value))
  }

  function Appended(d: Disk, q: PatchReq, o: PatchOutcome): Disk
    requires WellFormed(q)
  {
    Grow(d, Part(q.target.value), Landed(d, q, o))
  }

  /** The upload is complete, its hash was read and the rename went through. */
  predicate Finalises(d: Disk, q: PatchReq, o: PatchOutcome) {
    && Accepted(d, q, o)
    && o.streamOk && NewSize(d, q, o) >= q.length.value
    && o.hashOk && o.renameOk && !IsDir(d, q.target.value)
  }

  function Renamed(d: Disk, q: PatchReq, o: PatchOutcome): Disk
    requires WellFormed(q)
  {
    Moved(Appended(d, q, o), Part(q.target.value), q.target.value)
  }

  /** The disk a PATCH leaves. */
  function Resume(sha: Hash, d: Disk, q: PatchReq, o: PatchOutcome): Disk {
    if !Accepted(d, q, o) then d
    else if !Finalises(d, q, o) then Appended(d, q, o)
    else WriteSidecar(Renamed(d, q, o), q.target.value, sha(Content(Appended(d, q, o), Part(q.target.value))), o.sidecar)
  }

  function ResumeReply(d: Disk, q: PatchReq, o: PatchOutcome): Reply {
    if !WellFormed(q) then Plain(400)
    else if !o.mkdirOk then Plain(500)
    else if q.offset.value != Staged(d, q, o) then Reply(409, Some(Staged(d, q, o)), None)
    else if !Accepted(d, q, o) then Reply(500, Some(Staged(d, q, o)), None)
    else if !o.streamOk then Reply(500, Some(NewSize(d, q, o)), None)
    else if NewSize(d, q, o) < q.length.value then Reply(204, Some(NewSize(d, q, o)), Some(false))
    else if !Finalises(d, q, o) then Reply(500, Some(NewSize(d, q, o)), None)
    else Reply(200, Some(NewSize(d, q, o)), Some(true))
  }

  /** Every state the disk passes through during a PATCH. */
  ghost predicate ResumePasses(sha: Hash, d: Disk, q: PatchReq, o: PatchOutcome, x: Disk) {
    || x == d || x == Resume(sha, d, q, o)
    || (Accepted(d, q, o) && GrownBy(d, x, Part(q.target.value), Landed(d, q, o)))
    || (Finalises(d, q, o) && x == Renamed(d, q, o))
  }

  // ---- PUT, by upload or by config save ----

  datatype PutOutcome = PutOutcome(
    mkdirOk: bool, createOk: bool,
    take: nat, streamOk: bool, closeOk: bool, renameOk: bool,
    cleanupOk: bool, sidecar: SidecarOutcome)

  predicate PutStarts(d: Disk, target: Option<Path>, o: PutOutcome) {
    target.Some? && o.mkdirOk && o.createOk && !IsDir(d, Part(target.value))
  }

  predicate PutSucceeds(d: Disk, target: Option<Path>, o: PutOutcome) {
    PutStarts(d, target, o) && o.streamOk && o.closeOk && o.renameOk && !IsDir(d, target.value)
  }

  function Put(sha: Hash, d: Disk, target: Option<Path>, body: seq<byte>, o: PutOutcome): Disk {
    if !PutStarts(d, target, o) then d
    else
      var dest := target.value;
      var data := body[..Min(o.take, |body|)];
      var d1 := d[Part(dest) := File(data)];
      if PutSucceeds(d, target, o) then WriteSidecar(Moved(d1, Part(dest), dest), dest, sha(data), o.sidecar)
      else if o.cleanupOk then d1 - {Part(dest)}
      else d1
  }

  function PutReply(d: Disk, target: Option<Path>, o: PutOutcome): Reply {
    Plain(if target.None? then 400 else if PutSucceeds(d, target, o) then 201 else 500)
  }

  /** Every state the disk passes through during a PUT: a front of the data staged, then moved whole. */
  ghost predicate PutPasses(sha: Hash, d: Disk, target: Option<Path>, body: seq<byte>, o: PutOutcome, x: Disk) {
    || x == d || x == Put(sha, d, target, body, o)
    || (PutStarts(d, target, o) &&
        var (part, data) := (Part(target.value), body[..Min(o.take, |body|)]);
        || GrownBy(d[part := File([])], x, part, data)
        || (PutSucceeds(d, target, o) && x == Moved(d[part := File(data)], part, target.value)))
  }

  // ---- DELETE ----

  predicate Beneath(p: Path, dir: Path) { p == dir || dir + [SLASH] <= p }

  function Below(d: Disk, dir: Path): set<Path> { set p | p in d && Beneath(p, dir) }

  /** removeAll is None when RemoveAll succeeds, else what it had removed before failing. */
  datatype DeleteOutcome = DeleteOutcome(statOk: bool, removeAll: Option<set<Path>>, sidecarGone: bool, partGone: bool)

  function Remove(d: Disk, target: Option<Path>, o: DeleteOutcome): Disk {
    if target.None? || !o.statOk then d
    else
      var dest := target.value;
      var below := Below(d, dest);
      if dest !in d then (if Part(dest) in d && o.partGone then d - {Part(dest)} else d)
      else if o.removeAll.Some? then d - (below * o.removeAll.value)
      else d - below - (if o.sidecarGone then {Sidecar(dest)} else {}) - (if o.partGone then {Part(dest)} else {})
  }

  /** Every state the disk passes through during a DELETE: less and less of what goes in the end, and the sidecar
      not before all it could belong to. */
  ghost predicate RemovePasses(d: Disk, target: Option<Path>, o: DeleteOutcome, x: Disk) {
    && LessSome(d, x, d.Keys - Remove(d, target, o).Keys)
    && (target.Some? && Sidecar(target.value) in d && Sidecar(target.value) !in x ==>
          forall p :: p in x ==> !Beneath(p, target.value))
  }

  lemma SidecarIsBeside(t: Path)
    ensures !Beneath(Sidecar(t), t) && !Beneath(Part(t), t)
  {
    assert Sidecar(t)[|t|] == SIDECAR_EXT[0] && Part(t)[|t|] == PART_EXT[0];
  }

  function RemoveReply(d: Disk, target: Option<Path>, o: DeleteOutcome): Reply {
    Plain(if target.None? then 400
          else if !o.statOk then 500
          else if target.value !in d then (if Part(target.value) in d then 204 else 404)
          else if o.removeAll.Some? then 500
          else 204)
  }

  // ---- verify ----

  /** None: no such file, or no recorded checksum. */
  function Verify(sha: Hash, d: Disk, dest: Path): Option<bool> {
    if !IsFile(d, dest) || ReadSidecar(d, dest) == [] then None
    else Some(Hex(sha(Content(d, dest))) == ReadSidecar(d, dest))
  }

  // ---- names ----

  /** Upload targets are not themselves staging files or sidecars. */
  predicate ProperName(p: Path) { !HasSuffix(p, PART_EXT) && !HasSuffix(p, SIDECAR_EXT) }

  /** What is added to a name. */
  lemma NamesAre(p: Path)
    ensures Part(p) == p + B(".part") && Sidecar(p) == p + B(".sha256")
    ensures ProperName(p) <==> !HasSuffix(p, B(".part")) && !HasSuffix(p, B(".sha256"))
  {
  }

  lemma NamesApart(p: Path, q: Path)
    ensures Part(p) != p && Sidecar(p) != p && Part(p) != Sidecar(q)
    ensures Part(p) == Part(q) <==> p == q
    ensures Sidecar(p) == Sidecar(q) <==> p == q
    ensures ProperName(q) ==> Part(p) != q && Sidecar(p) != q
  {
    assert Part(p)[|p|..] == PART_EXT && Sidecar(p)[|p|..] == SIDECAR_EXT;
    assert Part(p)[|Part(p)| - 1] == 't' as int by { assert PART_EXT[4] == 't' as int; }
    assert Sidecar(q)[|Sidecar(q)| - 1] == '6' as int by { assert SIDECAR_EXT[6] == '6' as int; }
    if Part(p) == Part(q) {
      assert p == Part(p)[..|p|] == Part(q)[..|q|] == q;
    }
    if Sidecar(p) == Sidecar(q) {
      assert p == Sidecar(p)[..|p|] == Sidecar(q)[..|q|] == q;
    }
  }

  // ---- the sidecar line reads back ----

  lemma {:induction false} UpToSpaceStops(h: seq<byte>, rest: seq<byte>)
    requires forall i :: 0 <= i < |h| ==> !IsSpace(h[i])
    requires rest != [] && IsSpace(rest[0])
    ensures UpToSpace(h + rest) == h
  {
    if h == [] {
      assert h + rest == rest;
    } else {
      UpToSpaceStops(h[1..], rest);
      assert (h + rest)[1..] == h[1..] + rest;
    }
  }

  /** Whatever the file is called, reading back a sidecar that was written whole gives the hex digest. */
  lemma SidecarReadsBack(d: Disk, dest: Path, sum: Digest)
    requires !IsDir(d, Sidecar(dest))
    ensures ReadSidecar(WriteSidecar(d, dest, sum, Written), dest) == Hex(sum)
    ensures Hex(sum) != []
  {
    var rest: seq<byte> := [32, 32] + Base(dest) + [10];
    assert SidecarLine(sum, dest) == Hex(sum) + rest;
    UpToSpaceStops(Hex(sum), rest);
    assert !IsSpace((Hex(sum) + rest)[0]);
  }

  /** In sha256sum's own words: the digits, two spaces, the file's name, a line end. */
  lemma SidecarLineIs(sum: Digest, dir: Path, name: seq<byte>)
    requires SLASH !in name
    ensures SidecarLine(sum, dir + [SLASH] + name) == Hex(sum) + B("  ") + name + B("\n")
  {
    BaseIsLastName(dir, name);
    assert B("  ") == [32, 32] && B("\n") == [10];
  }

  predicate Blank(s: seq<byte>) { forall i | 0 <= i < |s| :: s[i] in {9, 10, 11, 12, 13, 32} }

  /** Of any sidecar text the first field counts, whatever white space comes before and whatever follows it. */
  lemma {:induction false} FirstFieldCounts(before: seq<byte>, field: seq<byte>, after: seq<byte>)
    requires Blank(before) && field != [] && forall i :: 0 <= i < |field| ==> field[i] !in {9, 10, 11, 12, 13, 32}
    requires after == [] || after[0] in {9, 10, 11, 12, 13, 32}
    ensures UpToSpace(SkipSpace(before + field + after)) == field
  {
    var s := before + field + after;
    if before == [] {
      assert s == field + after && s[0] == field[0];
      if after == [] {
        AllOneField(field);
        assert s == field;
      } else {
        UpToSpaceStops(field, after);
      }
    } else {
      assert s[0] == before[0] && s[1..] == before[1..] + field + after;
      FirstFieldCounts(before[1..], field, after);
    }
  }

  lemma {:induction false} AllOneField(field: seq<byte>)
    requires forall i :: 0 <= i < |field| ==> !IsSpace(field[i])
    ensures UpToSpace(field) == field
  {
    if field != [] {
      AllOneField(field[1..]);
      assert field == [field[0]] + field[1..];
    }
  }

  function HexValue(c: byte): int { if c <= 57 then c - 48 else c - 87 }

  /** Two hex digits give each byte back, high half first, so different digests have different digits. */
  lemma {:induction false} HexGivesBytesBack(b: seq<byte>, i: nat)
    requires i < |b|
    ensures HexValue(Hex(b)[2 * i]) * 16 + HexValue(Hex(b)[2 * i + 1]) == b[i]
  {
    if i == 0 {
      HexFirst(b);
    } else {
      HexGivesBytesBack(b[1..], i - 1);
      HexShift(b, 2 * i);
      HexShift(b, 2 * i + 1);
    }
  }

  lemma HexShift(b: seq<byte>, j: nat)
    requires b != [] && 2 <= j < 2 * |b|
    ensures Hex(b)[j] == Hex(b[1..])[j - 2]
  {
    HexFirst(b);
    assert Hex(b)[2..][j - 2] == Hex(b)[j];
  }

  lemma HexFirst(b: seq<byte>)
    requires b != []
    ensures HexValue(Hex(b)[0]) * 16 + HexValue(Hex(b)[1]) == b[0] && Hex(b)[2..] == Hex(b[1..])
  {
  }

  lemma HexIsInjective(a: Digest, b: Digest)
    ensures Hex(a) == Hex(b) ==> a == b
  {
    if Hex(a) == Hex(b) {
      forall i | 0 <= i < |a|
        ensures a[i] == b[i]
      {
        HexGivesBytesBack(a, i);
        HexGivesBytesBack(b, i);
      }
    }
  }

  lemma BaseIsLastName(dir: Path, name: seq<byte>)
    requires SLASH !in name
    ensures Base(dir + [SLASH] + name) == name
  {
    SplitJoined(dir, name);
    SplitPlain(name);
  }

  /** Nothing is verified without a file and a recorded checksum. */
  lemma VerifyNeedsBoth(sha: Hash, d: Disk, dest: Path)
    ensures !IsFile(d, dest) || !IsFile(d, Sidecar(dest)) ==> Verify(sha, d, dest) == None
    ensures IsFile(d, dest) && ReadSidecar(d, dest) != [] ==>
              Verify(sha, d, dest) == Some(Hex(sha(d[dest].data)) == ReadSidecar(d, dest))
  {
  }

  /** Against a sidecar written for sum, verification answers whether the file still has that digest. */
  lemma VerifyComparesDigests(sha: Hash, d: Disk, dest: Path, sum: Digest)
    requires IsFile(d, dest) && !IsDir(d, Sidecar(dest))
    ensures Verify(sha, WriteSidecar(d, dest, sum, Written), dest) == Some(sha(Content(d, dest)) == sum)
  {
    NamesApart(dest, dest);
    SidecarReadsBack(d, dest, sum);
    HexIsInjective(sha(Content(d, dest)), sum);
  }
}
