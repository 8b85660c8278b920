/** The handlers as they run: one file-system call after another, each of which may fail. Every method is
    proved to do what its function in Handlers says, and to pass only through the states listed there. */
module Server {
  import opened Bytes
  import opened Paths
  import opened Volume
  import opened Handlers

  /** A file name is needed: the parameter may be neither empty nor a folder. */
  function FileTarget(dataDir: seq<byte>, category: seq<byte>, rel: seq<byte>): Option<Path> {
    if rel == [] || HasSuffix(rel, [SLASH]) then None else ResolvePath(dataDir, category, rel)
  }

  /** A PUT or PATCH path is refused exactly if the category is unknown or no file name is given. */
  lemma FileTargetMeans(dataDir: seq<byte>, category: seq<byte>, rel: seq<byte>)
    ensures FileTarget(dataDir, category, []) == None
    ensures FileTarget(dataDir, category, rel + [47]) == None
    ensures rel != [] && rel[|rel| - 1] != 47 ==> FileTarget(dataDir, category, rel) == ResolvePath(dataDir, category, rel)
    ensures FileTarget(dataDir, category, rel).Some? <==> category in CATEGORIES && rel != [] && rel[|rel| - 1] != 47
  {
    if category in CATEGORIES {
      ResolvesBeneathRoot(dataDir, category, rel);
    }
    EndsInSlash(rel);
    EndsInSlash(rel + [47]);
  }

  lemma EndsInSlash(s: seq<byte>)
    ensures HasSuffix(s, [SLASH]) <==> s != [] && s[|s| - 1] == 47
  {
    if s != [] {
      assert s[|s| - 1..] == [s[|s| - 1]];
    }
  }

  /** DELETE refuses only a path of slashes. */
  function DeleteTarget(dataDir: seq<byte>, category: seq<byte>, rel: seq<byte>): Option<Path> {
    if OnlySlashes(rel) then None else ResolvePath(dataDir, category, rel)
  }

  /** Which deletes reach the category root itself: those whose path cleans to nothing without being all slashes,
      "." and "a/.." among them. If RemoveAll succeeds, nothing of the category is left. */
  lemma RootIsDeletedExactly(dataDir: seq<byte>, category: seq<byte>, rel: seq<byte>, d: Disk, o: DeleteOutcome)
    requires category in CATEGORIES
    ensures var root := Join(dataDir, category);
            && (DeleteTarget(dataDir, category, rel) == Some(root) <==> RelSegments(rel) == [] && !OnlySlashes(rel))
            && (root in d && o.statOk && o.removeAll.None? ==>
                  RemoveReply(d, Some(root), o).status == 204
                  && forall p :: p in Remove(d, Some(root), o) <==>
                       p in d && !Beneath(p, root) && !(o.sidecarGone && p == Sidecar(root))
                       && !(o.partGone && p == Part(root)))
  {
    DeleteGuardCoversSlashesOnly(dataDir, category, rel);
  }

  /** What the network and the disk do to one streamed request body. */
  datatype Stream = Stream(body: seq<byte>, arrivals: seq<Arrival>, ticks: nat -> DiskTick, finalSync: bool, closeOk: bool)

  /** No write and no sync on the way fails. */
  ghost predicate WritesWork(s: Stream) { forall i :: s.ticks(i) == DiskTick(None, true) }

  /** Nothing goes wrong with this stream, and all of the body up to the limit comes. */
  ghost predicate Flawless(s: Stream, limit: Option<int>) {
    && Delivers(s.arrivals, |Capped(s.body, limit)|)
    && ((limit.Some? && limit.value <= |s.body|) || Arrives(s.arrivals, |s.body|))
    && WritesWork(s) && s.finalSync && s.closeOk
  }

  datatype PatchFaults = PatchFaults(
    mkdirOk: bool, statOk: bool, openOk: bool, hashOk: bool, renameOk: bool, sidecar: SidecarOutcome)

  datatype PutFaults = PutFaults(mkdirOk: bool, createOk: bool, renameOk: bool, cleanupOk: bool, sidecar: SidecarOutcome)

  /** Appends up to limit bytes of the body to the file at path. */
  method AppendStream(v: Vol, path: Path, s: Stream, limit: int, openOk: bool)
    returns (n: nat, ok: bool, ghost landed: seq<byte>)
    requires v.Valid()
    modifies v
    ensures v.Valid() && landed <= Capped(s.body, Some(limit)) && n <= |landed| <= n + BUF && (ok ==> n == |landed|)
    ensures WritesWork(s) ==> n == |landed|
    ensures WritesWork(s) && openOk && !IsDir(old(v.files), path) ==>
              landed == Arriving(Capped(s.body, Some(limit)), s.arrivals)
    ensures ok && Delivers(s.arrivals, |Capped(s.body, Some(limit))|) ==> landed == Capped(s.body, Some(limit))
    ensures !openOk || IsDir(old(v.files), path) ==> !ok && n == 0 && v.files == old(v.files) && v.history == old(v.history)
    ensures openOk && !IsDir(old(v.files), path) ==>
              && v.files == Grow(old(v.files), path, landed)
              && Growth(old(v.history), v.history, old(v.files), path, landed)
              && (Flawless(s, Some(limit)) ==> ok)
  {
    ghost var d := v.files;
    var got := v.Open(path, false, openOk);
    if !got {
      return 0, false, [];
    }
    ghost var h := v.history;
    assert v.files == Grow(d, path, []) by { assert Content(d, path) + [] == Content(d, path); }
    var src := new Source(s.body, s.arrivals, Some(limit));
    n, ok, landed := v.CopyCountedSynced(path, src, s.ticks, s.finalSync);
    ok := ok && s.closeOk;
    GrowTwice(d, path, [], landed);
    assert [] + landed == landed;
    forall i | |old(v.history)| <= i < |v.history|
      ensures GrownBy(d, v.history[i], path, landed)
    {
      if i >= |h| {
        assert Growth(h, v.history, Grow(d, path, []), path, landed);
        assert GrownBy(Grow(d, path, []), v.history[i], path, landed);
      } else {
        assert v.history[i] == h[i];
      }
    }
  }

  /** Hashes the staged file, then renames it onto its final name. */
  method FinalizePart(v: Vol, sha: Hash, tmp: Path, dest: Path, hashOk: bool, renameOk: bool) returns (sum: Option<Digest>)
    requires v.Valid() && IsFile(v.files, tmp) && tmp != dest
    modifies v
    ensures v.Valid() && (sum.Some? <==> hashOk && renameOk && !IsDir(old(v.files), dest))
    ensures sum.Some? ==> sum.value == sha(Content(old(v.files), tmp)) && v.files == Moved(old(v.files), tmp, dest)
                          && v.history == old(v.history) + [v.files]
    ensures sum.None? ==> v.files == old(v.files) && v.history == old(v.history)
  {
    if !hashOk {
      return None;
    }
    var digest := sha(v.files[tmp].data);
    var done := v.Rename(tmp, dest, renameOk);
    sum := if done then Some(digest) else None;
  }

  method RecordSidecar(v: Vol, dest: Path, sum: Digest, o: SidecarOutcome)
    requires v.Valid()
    modifies v
    ensures v.Valid() && v.files == WriteSidecar(old(v.files), dest, sum, o)
    ensures old(v.history) <= v.history
    ensures forall i :: |old(v.history)| <= i < |v.history| ==> v.history[i] == v.files
  {
    var line := SidecarLine(sum, dest);
    if o.NotOpened? || IsDir(v.files, Sidecar(dest)) {
      return;
    }
    v.Set(v.files[Sidecar(dest) := File(if o.Written? then line else line[..Min(o.n, |line|)])]);
  }

  /** Finalises a fully staged upload: rename, then a sidecar whose failure is not an error. */
  method FinishUpload(v: Vol, sha: Hash, tmp: Path, dest: Path, newSize: nat, x: PatchFaults) returns (reply: Reply)
    requires v.Valid() && IsFile(v.files, tmp) && tmp != dest
    modifies v
    ensures v.Valid() && old(v.history) <= v.history
    ensures var d := old(v.files);
            if x.hashOk && x.renameOk && !IsDir(d, dest) then
              && reply == Reply(200, Some(newSize), Some(true))
              && v.files == WriteSidecar(Moved(d, tmp, dest), dest, sha(Content(d, tmp)), x.sidecar)
              && forall i :: |old(v.history)| <= i < |v.history| ==> v.history[i] in {Moved(d, tmp, dest), v.files}
            else reply == Reply(500, Some(newSize), None) && v.files == d && v.history == old(v.history)
  {
    var sum := FinalizePart(v, sha, tmp, dest, x.hashOk, x.renameOk);
    if sum.None? {
      return Reply(500, Some(newSize), None);
    }
    RecordSidecar(v, dest, sum.value, x.sidecar);
    reply := Reply(200, Some(newSize), Some(true));
  }

  /** PATCH. The ghost outcome sums up how the stream went; everything else in it is the given fault. */
  method HandleUploadResume(v: Vol, sha: Hash, dataDir: seq<byte>, category: seq<byte>, rel: seq<byte>,
                            offset: Option<int>, length: Option<int>, s: Stream, x: PatchFaults)
    returns (reply: Reply, ghost o: PatchOutcome)
    requires v.Valid()
    modifies v
    ensures v.Valid()
    ensures var q := PatchReq(FileTarget(dataDir, category, rel), offset, length, s.body);
            && v.files == Resume(sha, old(v.files), q, o) && reply == ResumeReply(old(v.files), q, o)
            && old(v.history) <= v.history
            && (forall i :: |old(v.history)| <= i < |v.history| ==> ResumePasses(sha, old(v.files), q, o, v.history[i]))
            && TookAll(old(v.files), q, o, s) && Honest(o, s)
            && (Accepted(old(v.files), q, o) && Flawless(s, Some(length.value - offset.value)) ==> o.streamOk)
    ensures WasGiven(o, x)
  {
    var target := FileTarget(dataDir, category, rel);
    ghost var q := PatchReq(target, offset, length, s.body);
    o := PatchOutcome(x.mkdirOk, x.statOk, x.openOk, 0, 0, false, x.hashOk, x.renameOk, x.sidecar);
    if target.None? || length.None? || length.value < 0 || offset.None? || offset.value < 0 {
      assert !WellFormed(q) && !Accepted(v.files, q, o);
      return Plain(400), o;
    }
    if !x.mkdirOk {
      assert !Accepted(v.files, q, o);
      return Plain(500), o;
    }
    reply, o := Chunk(v, sha, target.value, q, offset.value, length.value, s, x);
  }

  /** Appends a chunk whose offset has been found to match. */
  method StageChunk(v: Vol, dest: Path, ghost q: PatchReq, cur: nat, length: nat, s: Stream, x: PatchFaults)
    returns (newSize: nat, ok: bool, ghost o: PatchOutcome)
    requires v.Valid() && x.mkdirOk && q == PatchReq(Some(dest), Some(cur), Some(length), s.body)
    requires cur == if x.statOk then StatSize(v.files, Part(dest)) else 0
    modifies v
    ensures v.Valid() && WasGiven(o, x) && o.streamOk == ok
    ensures Accepted(old(v.files), q, o) <==> x.openOk && !IsDir(old(v.files), Part(dest))
    ensures !Accepted(old(v.files), q, o) ==> !ok && newSize == cur && v.files == old(v.files) && v.history == old(v.history)
    ensures Accepted(old(v.files), q, o) ==>
              && v.files == Appended(old(v.files), q, o) && newSize == NewSize(old(v.files), q, o)
              && Growth(old(v.history), v.history, old(v.files), Part(dest), Landed(old(v.files), q, o))
    ensures TookAll(old(v.files), q, o, s) && Honest(o, s)
    ensures Flawless(s, Some(length - cur)) && Accepted(old(v.files), q, o) ==> ok
  {
    ghost var d := v.files;
    var n, done, landed := AppendStream(v, Part(dest), s, length - cur, x.openOk);
    newSize, ok := cur + n, done;
    o := PatchOutcome(true, x.statOk, x.openOk, |landed|, |landed| - n, ok, x.hashOk, x.renameOk, x.sidecar);
    ChunkCounts(d, q, o, cur, n, landed);
    ChunkTaken(d, q, o, s, landed);
  }

  /** The outcome that sums up what a stream put on the disk and what it counted. */
  lemma ChunkCounts(d: Disk, q: PatchReq, o: PatchOutcome, cur: nat, n: nat, landed: seq<byte>)
    requires WellFormed(q) && Staged(d, q, o) == q.offset.value == cur
    requires landed <= Offered(q) && n <= |landed| && (o.streamOk ==> n == |landed|)
    requires o.take == |landed| && o.uncounted == |landed| - n
    ensures Landed(d, q, o) == landed && NewSize(d, q, o) == cur + n
  {
  }

  lemma ChunkTaken(d: Disk, q: PatchReq, o: PatchOutcome, s: Stream, landed: seq<byte>)
    requires WellFormed(q) && Landed(d, q, o) == landed
    requires Accepted(d, q, o) && o.streamOk && Delivers(s.arrivals, |Offered(q)|) ==> landed == Offered(q)
    requires Accepted(d, q, o) && WritesWork(s) ==> landed == Arriving(Offered(q), s.arrivals)
    ensures TookAll(d, q, o, s)
  {
  }

  /** The part of a chunk's body that fits. */
  function Offered(q: PatchReq): seq<byte>
    requires WellFormed(q)
  {
    Capped(q.body, Some(q.length.value - q.offset.value))
  }

  /** A stream that ends well has brought the whole chunk, if the reader reports the end only at the end; and what came
      before a break is kept, if it can be written. */
  ghost predicate TookAll(d: Disk, q: PatchReq, o: PatchOutcome, s: Stream) {
    && (Accepted(d, q, o) && o.streamOk && Delivers(s.arrivals, |Offered(q)|) ==> Landed(d, q, o) == Offered(q))
    && (Accepted(d, q, o) && WritesWork(s) ==> Landed(d, q, o) == Arriving(Offered(q), s.arrivals))
  }

  /** The count falls short of what reached the disk by at most one buffer, whose write failed. */
  ghost predicate Honest(o: PatchOutcome, s: Stream) {
    o.uncounted <= BUF && (WritesWork(s) ==> o.uncounted == 0)
  }

  /** The faults of the outcome are the given ones. */
  ghost predicate WasGiven(o: PatchOutcome, x: PatchFaults) {
    && o.mkdirOk == x.mkdirOk && o.statOk == x.statOk && o.openOk == x.openOk
    && o.hashOk == x.hashOk && o.renameOk == x.renameOk && o.sidecar == x.sidecar
  }

  /** The part of PATCH after the request has been checked. */
  method Chunk(v: Vol, sha: Hash, dest: Path, ghost q: PatchReq, offset: nat, length: nat, s: Stream, x: PatchFaults)
    returns (reply: Reply, ghost o: PatchOutcome)
    requires v.Valid() && x.mkdirOk && q == PatchReq(Some(dest), Some(offset), Some(length), s.body)
    modifies v
    ensures v.Valid() && WasGiven(o, x)
    ensures v.files == Resume(sha, old(v.files), q, o) && reply == ResumeReply(old(v.files), q, o)
    ensures old(v.history) <= v.history
    ensures forall i :: |old(v.history)| <= i < |v.history| ==> ResumePasses(sha, old(v.files), q, o, v.history[i])
    ensures TookAll(old(v.files), q, o, s) && Honest(o, s)
    ensures Flawless(s, Some(length - offset)) && Accepted(old(v.files), q, o) ==> o.streamOk
  {
    ghost var d := v.files;
    var tmp := Part(dest);
    NamesApart(dest, dest);
    var cur := if x.statOk then StatSize(v.files, tmp) else 0;
    if offset != cur {
      o := PatchOutcome(true, x.statOk, x.openOk, 0, 0, false, x.hashOk, x.renameOk, x.sidecar);
      assert !Accepted(d, q, o);
      return Reply(409, Some(cur), None), o;
    }
    var newSize, ok, oo := StageChunk(v, dest, q, cur, length, s, x);
    o := oo;
    ghost var staged := v.history;
    if Accepted(d, q, o) {
      StagedChunk(old(v.history), staged, sha, d, q, o);
    }
    if !ok {
      return Reply(500, Some(newSize), None), o;
    }
    reply := SettleChunk(v, sha, dest, d, q, o, newSize, length, x);
    assert forall i :: |old(v.history)| <= i < |staged| ==> v.history[i] == staged[i];
  }

  /** Answers a chunk that was appended: more expected, or the whole upload to finalise. */
  method SettleChunk(v: Vol, sha: Hash, dest: Path, ghost d: Disk, ghost q: PatchReq, ghost o: PatchOutcome,
                     newSize: nat, length: nat, x: PatchFaults) returns (reply: Reply)
    requires v.Valid() && Accepted(d, q, o) && o.streamOk && WasGiven(o, x)
    requires q.target == Some(dest) && q.length == Some(length) && newSize == NewSize(d, q, o)
    requires v.files == Appended(d, q, o)
    modifies v
    ensures v.Valid() && v.files == Resume(sha, d, q, o) && reply == ResumeReply(d, q, o)
    ensures old(v.history) <= v.history
    ensures forall i :: |old(v.history)| <= i < |v.history| ==> ResumePasses(sha, d, q, o, v.history[i])
  {
    NamesApart(dest, dest);
    if newSize < length {
      return Reply(204, Some(newSize), Some(false));
    }
    reply := FinishUpload(v, sha, Part(dest), dest, newSize, x);
  }

  lemma StagedChunk(before: seq<Disk>, after: seq<Disk>, sha: Hash, d: Disk, q: PatchReq, o: PatchOutcome)
    requires Accepted(d, q, o) && Growth(before, after, d, Part(q.target.value), Landed(d, q, o))
    ensures forall i :: |before| <= i < |after| ==> ResumePasses(sha, d, q, o, after[i])
  {
  }

  /** The faults of the outcome are the given ones. */
  ghost predicate PutWasGiven(o: PutOutcome, x: PutFaults, closeOk: bool) {
    && o.mkdirOk == x.mkdirOk && o.createOk == x.createOk && o.closeOk == closeOk
    && o.renameOk == x.renameOk && o.cleanupOk == x.cleanupOk && o.sidecar == x.sidecar
  }

  /** The first part of saveStream: create, copy through the hash, close. */
  method StageStream(v: Vol, sha: Hash, tmp: Path, s: Stream, createOk: bool)
    returns (created: bool, sum: Option<Digest>, ghost landed: seq<byte>, ghost copied: bool)
    requires v.Valid()
    modifies v
    ensures v.Valid() && landed <= s.body && (created <==> createOk && !IsDir(old(v.files), tmp))
    ensures !created ==> v.files == old(v.files) && v.history == old(v.history)
    ensures created ==> v.files == old(v.files)[tmp := File(landed)]
                        && Growth(old(v.history), v.history, old(v.files)[tmp := File([])], tmp, landed)
    ensures sum.Some? <==> created && copied && s.closeOk
    ensures sum.Some? ==> sum.value == sha(landed)
    ensures sum.Some? && Delivers(s.arrivals, |s.body|) ==> landed == s.body
    ensures created && Flawless(s, None) ==> copied
  {
    sum, landed, copied := None, [], false;
    created := v.Open(tmp, true, createOk);
    if !created {
      return;
    }
    ghost var first, h := v.files, v.history;
    var src := new Source(s.body, s.arrivals, None);
    assert src.Avail() == s.body;
    var n, ok, w := v.CopyCountedSynced(tmp, src, s.ticks, s.finalSync);
    landed, copied := w, ok;
    assert [] + landed == landed;
    assert Growth(h, v.history, first, tmp, landed);
    assert Growth(old(v.history), v.history, first, tmp, landed) by {
      assert v.history[|old(v.history)|] == h[|old(v.history)|] == first;
    }
    if ok && s.closeOk {
      sum := Some(sha(src.passed));
    }
  }

  lemma StagedFront(before: seq<Disk>, after: seq<Disk>, sha: Hash, d: Disk, dest: Path, body: seq<byte>, o: PutOutcome)
    requires PutStarts(d, Some(dest), o)
    requires Growth(before, after, d[Part(dest) := File([])], Part(dest), body[..Min(o.take, |body|)])
    ensures forall i :: |before| <= i < |after| ==> PutPasses(sha, d, Some(dest), body, o, after[i])
  {
  }

  /** saveStream: stage the whole body in a truncated .part, rename it, and clean up on failure. The digest is
      the one hashed while streaming. */
  method SaveStream(v: Vol, sha: Hash, dest: Path, s: Stream, x: PutFaults)
    returns (sum: Option<Digest>, ghost o: PutOutcome)
    requires v.Valid() && x.mkdirOk
    modifies v
    ensures v.Valid() && PutWasGiven(o, x, s.closeOk)
    ensures sum.Some? <==> PutSucceeds(old(v.files), Some(dest), o)
    ensures sum.None? ==> v.files == Put(sha, old(v.files), Some(dest), s.body, o)
    ensures sum.Some? ==>
              var data := s.body[..Min(o.take, |s.body|)];
              sum.value == sha(data) && v.files == Moved(old(v.files)[Part(dest) := File(data)], Part(dest), dest)
    ensures sum.Some? && Delivers(s.arrivals, |s.body|) ==> o.take == |s.body|
    ensures PutStarts(old(v.files), Some(dest), o) && Flawless(s, None) ==> o.streamOk
    ensures old(v.history) <= v.history
    ensures forall i :: |old(v.history)| <= i < |v.history| ==>
              PutPasses(sha, old(v.files), Some(dest), s.body, o, v.history[i])
  {
    ghost var d := v.files;
    var tmp := Part(dest);
    NamesApart(dest, dest);
    var created, digest, landed, copied := StageStream(v, sha, tmp, s, x.createOk);
    o := PutOutcome(true, x.createOk, |landed|, copied, s.closeOk, x.renameOk, x.cleanupOk, x.sidecar);
    sum := digest;
    if !created {
      return;
    }
    assert s.body[..Min(o.take, |s.body|)] == landed;
    ghost var staged := v.history;
    StagedFront(old(v.history), staged, sha, d, dest, s.body, o);
    var done := Commit(v, tmp, dest, sum.Some?, x.renameOk, x.cleanupOk);
    sum := if done then sum else None;
    PutEnds(sha, d, dest, s.body, o);
    assert forall i :: |old(v.history)| <= i < |staged| ==> v.history[i] == staged[i];
  }

  /** The last part of saveStream: the rename, or the deferred removal of the staging file. */
  method Commit(v: Vol, tmp: Path, dest: Path, whole: bool, renameOk: bool, cleanupOk: bool) returns (done: bool)
    requires v.Valid() && IsFile(v.files, tmp) && tmp != dest
    modifies v
    ensures v.Valid() && (done <==> whole && renameOk && !IsDir(old(v.files), dest))
    ensures v.files == if done then Moved(old(v.files), tmp, dest) else old(v.files) - (if cleanupOk then {tmp} else {})
    ensures old(v.history) <= v.history
    ensures forall i :: |old(v.history)| <= i < |v.history| ==> v.history[i] == v.files
  {
    done := false;
    if whole {
      done := v.Rename(tmp, dest, renameOk);
    }
    if !done {
      v.Delete(tmp, cleanupOk);
    }
  }

  /** How saveStream leaves a staged body. */
  lemma PutEnds(sha: Hash, d: Disk, dest: Path, body: seq<byte>, o: PutOutcome)
    requires PutStarts(d, Some(dest), o)
    ensures var data := body[..Min(o.take, |body|)];
            var (staged, target) := (d[Part(dest) := File(data)], Some(dest));
            && (!PutSucceeds(d, target, o) ==>
                  && Put(sha, d, target, body, o) == staged - (if o.cleanupOk then {Part(dest)} else {})
                  && PutPasses(sha, d, target, body, o, staged - (if o.cleanupOk then {Part(dest)} else {})))
            && (PutSucceeds(d, target, o) ==> PutPasses(sha, d, target, body, o, Moved(staged, Part(dest), dest)))
  {
  }

  /** What a PUT does once its target and bytes are known: make the folders, save the stream, record its sidecar. */
  method StoreStream(v: Vol, sha: Hash, dest: Path, s: Stream, x: PutFaults) returns (reply: Reply, ghost o: PutOutcome)
    requires v.Valid()
    modifies v
    ensures v.Valid() && PutWasGiven(o, x, s.closeOk)
    ensures v.files == Put(sha, old(v.files), Some(dest), s.body, o) && reply == PutReply(old(v.files), Some(dest), o)
    ensures reply.status == 201 && Delivers(s.arrivals, |s.body|) ==> o.take == |s.body|
    ensures PutStarts(old(v.files), Some(dest), o) && Flawless(s, None) ==> o.streamOk
    ensures old(v.history) <= v.history
    ensures forall i :: |old(v.history)| <= i < |v.history| ==>
              PutPasses(sha, old(v.files), Some(dest), s.body, o, v.history[i])
  {
    o := PutOutcome(x.mkdirOk, x.createOk, 0, false, s.closeOk, x.renameOk, x.cleanupOk, x.sidecar);
    if !x.mkdirOk {
      return Plain(500), o;
    }
    var sum, oo := SaveStream(v, sha, dest, s, x);
    o := oo;
    if sum.None? {
      return Plain(500), o;
    }
    ghost var staged := v.history;
    RecordSidecar(v, dest, sum.value, x.sidecar);
    assert forall i :: |old(v.history)| <= i < |staged| ==> v.history[i] == staged[i];
    reply := Plain(201);
  }

  /** Where nothing stands in the way, a PUT whose stream ends well is answered 201; and a PUT that took its whole body
      has left it under the final name. */
  lemma WholePut(sha: Hash, d: Disk, dest: Path, body: seq<byte>, o: PutOutcome)
    ensures PutSucceeds(d, Some(dest), o) && o.take == |body| ==>
              dest in Put(sha, d, Some(dest), body, o) && Put(sha, d, Some(dest), body, o)[dest] == File(body)
    ensures o.mkdirOk && o.createOk && o.streamOk && o.closeOk && o.renameOk && !IsDir(d, dest) && !IsDir(d, Part(dest)) ==>
              PutReply(d, Some(dest), o).status == 201
  {
    NamesApart(dest, dest);
    assert body[..|body|] == body;
  }

  /** No directory is where the file or its staging file should go, and no call fails. */
  predicate Unhindered(d: Disk, dest: Path, x: PutFaults) {
    x.mkdirOk && x.createOk && x.renameOk && !IsDir(d, dest) && !IsDir(d, Part(dest))
  }

  /** PUT of a file. One answered 201 has stored the whole body, if the reader reports the end only at the end; and if
      nothing goes wrong, that is the answer. */
  method HandleUpload(v: Vol, sha: Hash, dataDir: seq<byte>, category: seq<byte>, rel: seq<byte>, s: Stream, x: PutFaults)
    returns (reply: Reply, ghost o: PutOutcome)
    requires v.Valid()
    modifies v
    ensures v.Valid() && PutWasGiven(o, x, s.closeOk)
    ensures var target := FileTarget(dataDir, category, rel);
            && v.files == Put(sha, old(v.files), target, s.body, o) && reply == PutReply(old(v.files), target, o)
            && old(v.history) <= v.history
            && (forall i :: |old(v.history)| <= i < |v.history| ==>
                  PutPasses(sha, old(v.files), target, s.body, o, v.history[i]))
            && (reply.status == 201 && Delivers(s.arrivals, |s.body|) ==>
                  target.Some? && target.value in v.files && v.files[target.value] == File(s.body))
            && (target.Some? && Unhindered(old(v.files), target.value, x) && Flawless(s, None) ==> reply.status == 201)
  {
    var target := FileTarget(dataDir, category, rel);
    if target.None? {
      o := PutOutcome(x.mkdirOk, x.createOk, 0, false, s.closeOk, x.renameOk, x.cleanupOk, x.sidecar);
      return Plain(400), o;
    }
    ghost var d := v.files;
    var r, oo := StoreStream(v, sha, target.value, s, x);
    reply, o := r, oo;
    WholePut(sha, d, target.value, s.body, o);
  }

  method HandleDelete(v: Vol, dataDir: seq<byte>, category: seq<byte>, rel: seq<byte>, o: DeleteOutcome)
    returns (reply: Reply)
    requires v.Valid()
    modifies v
    ensures v.Valid()
    ensures var target := DeleteTarget(dataDir, category, rel);
            && v.files == Remove(old(v.files), target, o) && reply == RemoveReply(old(v.files), target, o)
            && old(v.history) <= v.history
            && forall i :: |old(v.history)| <= i < |v.history| ==> RemovePasses(old(v.files), target, o, v.history[i])
  {
    var target := DeleteTarget(dataDir, category, rel);
    if target.None? {
      return Plain(400);
    }
    if !o.statOk {
      return Plain(500);
    }
    var dest := target.value;
    if dest in v.files {
      reply := DeleteFound(v, dest, o);
    } else {
      reply := DeleteStaged(v, dest, o);
    }
  }

  /** Without a final file, an interrupted upload's staging file is what a DELETE discards. */
  method DeleteStaged(v: Vol, dest: Path, o: DeleteOutcome) returns (reply: Reply)
    requires v.Valid() && o.statOk && dest !in v.files
    modifies v
    ensures v.Valid()
    ensures v.files == Remove(old(v.files), Some(dest), o) && reply == RemoveReply(old(v.files), Some(dest), o)
    ensures old(v.history) <= v.history
    ensures forall i :: |old(v.history)| <= i < |v.history| ==> RemovePasses(old(v.files), Some(dest), o, v.history[i])
  {
    if Part(dest) !in v.files {
      return Plain(404);
    }
    DiscardPasses(v.files, dest, o);
    v.Delete(Part(dest), o.partGone);
    reply := Plain(204);
  }

  lemma DiscardPasses(d: Disk, dest: Path, o: DeleteOutcome)
    requires o.statOk && dest !in d && Part(dest) in d
    ensures RemovePasses(d, Some(dest), o, Remove(d, Some(dest), o))
  {
    NamesApart(dest, dest);
  }

  /** RemoveAll on a target that is there. */
  method RemoveBelow(v: Vol, dest: Path, o: DeleteOutcome)
    requires v.Valid() && dest in v.files && o.statOk
    modifies v
    ensures v.Valid() && old(v.history) <= v.history
    ensures v.files == if o.removeAll.Some? then Remove(old(v.files), Some(dest), o)
                       else old(v.files) - Below(old(v.files), dest)
    ensures forall i :: |old(v.history)| <= i < |v.history| ==> RemovePasses(old(v.files), Some(dest), o, v.history[i])
  {
    ghost var d := v.files;
    var below := set p | p in v.files && Beneath(p, dest);
    v.RemoveAll(if o.removeAll.Some? then below * o.removeAll.value else below);
    forall i | |old(v.history)| <= i < |v.history|
      ensures RemovePasses(d, Some(dest), o, v.history[i])
    {
      WhileRemoving(d, dest, o, v.history[i]);
    }
  }

  /** The part of DELETE for a target that is there. */
  method DeleteFound(v: Vol, dest: Path, o: DeleteOutcome) returns (reply: Reply)
    requires v.Valid() && o.statOk && dest in v.files
    modifies v
    ensures v.Valid()
    ensures v.files == Remove(old(v.files), Some(dest), o) && reply == RemoveReply(old(v.files), Some(dest), o)
    ensures old(v.history) <= v.history
    ensures forall i :: |old(v.history)| <= i < |v.history| ==> RemovePasses(old(v.files), Some(dest), o, v.history[i])
  {
    ghost var d := v.files;
    RemoveBelow(v, dest, o);
    if o.removeAll.Some? {
      return Plain(500);
    }
    ghost var gone := v.history;
    v.Delete(Sidecar(dest), o.sidecarGone);
    Swept(d, dest, o, false);
    v.Delete(Part(dest), o.partGone);
    Swept(d, dest, o, true);
    assert forall i :: |old(v.history)| <= i < |gone| ==> v.history[i] == gone[i];
    reply := Plain(204);
  }

  lemma WhileRemoving(d: Disk, dest: Path, o: DeleteOutcome, x: Disk)
    requires dest in d && o.statOk
    requires LessSome(d, x, if o.removeAll.Some? then Below(d, dest) * o.removeAll.value else Below(d, dest))
    ensures RemovePasses(d, Some(dest), o, x)
  {
    SidecarIsBeside(dest);
  }

  /** Once everything below is gone the sidecar may go, and then the staging file. */
  lemma Swept(d: Disk, dest: Path, o: DeleteOutcome, both: bool)
    requires dest in d && o.statOk && o.removeAll.None?
    ensures var bare := d - Below(d, dest) - (if o.sidecarGone then {Sidecar(dest)} else {});
            RemovePasses(d, Some(dest), o, if both then bare - (if o.partGone then {Part(dest)} else {}) else bare)
  {
  }
}
