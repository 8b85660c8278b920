/** Whole runs of the file server: arbitrary interleavings of requests to many targets, with any faults. */
module Runs {
  import opened Bytes
  import opened Paths
  import opened Volume
  import opened Handlers

  /** One handled request. A config save is a PUT of the bytes it prepared. */
  datatype Event =
    | Query(target: Option<Path>, head: HeadOutcome)
    | Chunk(q: PatchReq, patch: PatchOutcome)
    | Upload(target: Option<Path>, body: seq<byte>, put: PutOutcome)
    | Delete(target: Option<Path>, del: DeleteOutcome)
  {
    function Dest(): Option<Path> {
      match this
      case Chunk(q, _) => if WellFormed(q) then q.target else None
      case _ => target
    }
  }

  function Apply(sha: Hash, d: Disk, e: Event): Disk {
    match e
    case Query(_, _) => d
    case Chunk(q, o) => Resume(sha, d, q, o)
    case Upload(t, body, o) => Put(sha, d, t, body, o)
    case Delete(t, o) => Remove(d, t, o)
  }

  function Answer(d: Disk, e: Event): Reply {
    match e
    case Query(t, o) => Head(d, t, o)
    case Chunk(q, o) => ResumeReply(d, q, o)
    case Upload(t, _, o) => PutReply(d, t, o)
    case Delete(t, o) => RemoveReply(d, t, o)
  }

  /** The disk after the first |es| requests. */
  function After(sha: Hash, d: Disk, es: seq<Event>): Disk {
    if es == [] then d else Apply(sha, After(sha, d, es[..|es| - 1]), es[|es| - 1])
  }

  // ---- one request ----

  /** A HEAD whose Stats work reports the exact size of what it finds, and changes nothing. */
  lemma QueryReportsExactSize(sha: Hash, d: Disk, t: Path)
    requires !IsDir(d, Part(t))
    ensures var r := Answer(d, Query(Some(t), HeadOutcome(true, true)));
            && r.status == 200
            && (r.complete == Some(true) <==> IsFile(d, t))
            && r.offset == Some(|Content(d, if IsFile(d, t) then t else Part(t))|)
    ensures Apply(sha, d, Query(Some(t), HeadOutcome(true, true))) == d
  {
  }

  /** A refused chunk changes nothing and is told the staged size; an accepted one lands exactly behind what is
      staged; and the final name appears only in one move of the whole staged file. */
  lemma ChunkEffects(sha: Hash, d: Disk, q: PatchReq, o: PatchOutcome)
    requires WellFormed(q) && o.statOk
    ensures var (t, d', r) := (q.target.value, Resume(sha, d, q, o), ResumeReply(d, q, o));
            && (r.status == 409 ==> d' == d && r.offset == Some(StatSize(d, Part(t))) && r.offset.value != q.offset.value)
            && (q.offset.value != StatSize(d, Part(t)) ==> d' == d)
            && (Accepted(d, q, o) ==> |Content(d, Part(t))| == q.offset.value)
            && (Accepted(d, q, o) && !Finalises(d, q, o) ==>
                  Content(d', Part(t)) == Content(d, Part(t)) + Landed(d, q, o) && d' - {Part(t)} == d - {Part(t)})
            && (r.status == 200 <==> Finalises(d, q, o))
            && (r.status == 200 ==>
                  && Part(t) !in d'
                  && d'[t] == File(Content(d, Part(t)) + Landed(d, q, o))
                  && |d'[t].data| >= q.length.value)
            && (r.status == 204 ==> r.offset == Some(|Content(d', Part(t))|) && r.offset.value < q.length.value)
  {
  }

  /** Which answer a PATCH gets, and that a mismatched offset is always answered with the staged size. */
  lemma ChunkStatuses(d: Disk, q: PatchReq, o: PatchOutcome)
    requires o.statOk
    ensures var r := ResumeReply(d, q, o);
            && (r.status == 400 <==> || q.target == None || q.length == None || q.length.value < 0
                                     || q.offset == None || q.offset.value < 0)
            && (r.status == 409 <==> WellFormed(q) && o.mkdirOk && q.offset.value != StatSize(d, Part(q.target.value)))
            && (r.status == 409 ==> r == Reply(409, Some(StatSize(d, Part(q.target.value))), None))
            && (r.status in {200, 204} <==> Accepted(d, q, o) && o.streamOk && (Finalises(d, q, o) || r.status == 204))
            && (r.status == 200 ==> r == Reply(200, Some(|Content(d, Part(q.target.value)) + Landed(d, q, o)|), Some(true)))
            && (r.status == 204 ==> r == Reply(204, Some(|Content(d, Part(q.target.value)) + Landed(d, q, o)|), Some(false)))
            && (r.status !in {200, 204, 400, 409} ==> r.status == 500 && r.complete == None)
            && (Accepted(d, q, o) && !o.streamOk ==>
                  r == Reply(500, Some(|Content(d, Part(q.target.value)) + Landed(d, q, o)|
                                       - Min(o.uncounted, |Landed(d, q, o)|)), None))
  {
  }

  /** What reaches the disk is never more than fits the declared length, and all of that if all of it comes. */
  lemma LandedFits(d: Disk, q: PatchReq, o: PatchOutcome)
    requires WellFormed(q) && o.statOk && StatSize(d, Part(q.target.value)) <= q.length.value
    ensures Landed(d, q, o) <= q.body
    ensures |Landed(d, q, o)| <= q.length.value - StatSize(d, Part(q.target.value))
    ensures |q.body| <= o.take && |q.body| <= q.length.value - StatSize(d, Part(q.target.value)) ==>
              Landed(d, q, o) == q.body
  {
  }

  /** A chunk is appended at the offset it declares exactly when Stat worked or nothing was staged. */
  lemma LandsAtOffsetExactly(d: Disk, q: PatchReq, o: PatchOutcome)
    requires Accepted(d, q, o)
    ensures |Content(d, Part(q.target.value))| == q.offset.value <==> o.statOk || Content(d, Part(q.target.value)) == []
  {
  }

  /** What a failed Stat can do: a chunk for offset 0 lands behind the byte already staged, and the upload is
      finalised with that byte twice. */
  lemma FailedStatCorrupts(sha: Hash, t: Path)
    ensures var d: Disk := map[Part(t) := File([7])];
            var q := PatchReq(Some(t), Some(0), Some(2), [7, 8]);
            var o := PatchOutcome(true, false, true, 2, 0, true, true, true, Written);
            && ResumeReply(d, q, o).status == 200
            && t in Resume(sha, d, q, o) && Resume(sha, d, q, o)[t] == File([7, 7, 8])
  {
  }

  /** A PUT answered 201 leaves the body under the final name, no staging file, and a sidecar that verifies; one
      that fails leaves the final name and its sidecar alone, and no staging file if it could clean up. */
  lemma UploadEffects(sha: Hash, d: Disk, t: Path, body: seq<byte>, o: PutOutcome)
    requires !IsDir(d, Sidecar(t))
    ensures var (d', r) := (Put(sha, d, Some(t), body, o), PutReply(d, Some(t), o));
            && (r.status == 201 ==>
                  && d'[t] == File(body[..Min(o.take, |body|)]) && Part(t) !in d'
                  && (o.sidecar.Written? ==> Verify(sha, d', t) == Some(true)))
            && (r.status == 201 <==> o.mkdirOk && o.createOk && o.streamOk && o.closeOk && o.renameOk
                                     && !IsDir(d, Part(t)) && !IsDir(d, t))
            && (r.status != 201 ==>
                  && r.status == 500
                  && d' - {Part(t)} == d - {Part(t)}
                  && (d' == d || (o.cleanupOk && Part(t) !in d') || (!o.cleanupOk && d'[Part(t)].File?)))
  {
    NamesApart(t, t);
    if PutSucceeds(d, Some(t), o) {
      var data := body[..Min(o.take, |body|)];
      var d2 := Moved(d[Part(t) := File(data)], Part(t), t);
      VerifyComparesDigests(sha, d2, t, sha(data));
    }
  }

  /** A DELETE answered 204 with every removal done leaves nothing at or below the target, nor its staging file;
      if there was a final file, nor its sidecar. One answered 404 found neither. Every other answer but a partly
      failed removal changes nothing. */
  lemma DeleteEffects(d: Disk, t: Path, o: DeleteOutcome)
    ensures var (d', r) := (Remove(d, Some(t), o), RemoveReply(d, Some(t), o));
            && (r.status == 204 && o.partGone ==> t !in d' && Part(t) !in d')
            && (r.status == 204 && t in d ==>
                  && (forall p :: p in d' ==> p in d && !Beneath(p, t)) && (o.sidecarGone ==> Sidecar(t) !in d')
                  && (forall rest :: t + [SLASH] + rest !in d'))
            && (forall p :: p in d && p !in d' ==>
                  p == t || p == Sidecar(t) || p == Part(t) || exists rest :: p == t + [SLASH] + rest)
            && (r.status == 404 <==> o.statOk && t !in d && Part(t) !in d)
            && (r.status == 500 <==> !o.statOk || (t in d && o.removeAll.Some?))
            && r.status in {204, 404, 500}
            && (r.status != 204 && !(r.status == 500 && o.statOk) ==> d' == d)
  {
    forall p
      ensures Beneath(p, t) <==> p == t || exists rest :: p == t + [SLASH] + rest
    {
      BeneathMeans(p, t);
    }
  }

  /** A request whose path was refused is answered 400 and changes nothing. */
  lemma BadPathRefused(sha: Hash, d: Disk, e: Event)
    requires (e.Chunk? && e.q.target == None) || (!e.Chunk? && e.target == None)
    ensures Answer(d, e).status == 400 && Apply(sha, d, e) == d
  {
  }

  /** A path is beneath a directory exactly when it is the directory or goes on behind it with a slash. */
  lemma BeneathMeans(p: Path, dir: Path)
    ensures Beneath(p, dir) <==> p == dir || exists rest :: p == dir + [SLASH] + rest
  {
    if dir + [SLASH] <= p {
      assert p == dir + [SLASH] + p[|dir| + 1..];
    }
  }

  /** Only these files can differ after a request. */
  predicate Touches(e: Event, p: Path) {
    e.Dest().Some? &&
    var t := e.Dest().value;
    p == t || p == Part(t) || p == Sidecar(t) || (e.Delete? && Beneath(p, t))
  }

  function Lookup(d: Disk, p: Path): Option<Node> {
    if p in d then Some(d[p]) else None
  }

  lemma OthersUntouched(sha: Hash, d: Disk, e: Event, p: Path)
    requires !Touches(e, p)
    ensures Lookup(Apply(sha, d, e), p) == Lookup(d, p)
  {
  }

  /** Every state the disk passes through while a request is handled. */
  ghost predicate Passes(sha: Hash, d: Disk, e: Event, x: Disk) {
    match e
    case Query(_, _) => x == d
    case Chunk(q, o) => ResumePasses(sha, d, q, o, x)
    case Upload(t, body, o) => PutPasses(sha, d, t, body, o, x)
    case Delete(t, o) => RemovePasses(d, t, o, x)
  }

  lemma EndsInAState(sha: Hash, d: Disk, e: Event)
    ensures Passes(sha, d, e, Apply(sha, d, e))
  {
    if e.Delete? && e.target.Some? {
      SidecarIsBeside(e.target.value);
      NamesApart(e.target.value, e.target.value);
    }
  }

  /** Whatever the request, a final file is left alone, removed, or replaced whole: by what was staged with the
      chunk behind it, or by a front of the uploaded body that the server took for all of it. */
  lemma FinalFileChangesWhole(sha: Hash, d: Disk, e: Event, p: Path)
    requires ProperName(p) && (e.Dest().Some? ==> ProperName(e.Dest().value))
    ensures var (before, after) := (Lookup(d, p), Lookup(Apply(sha, d, e), p));
            || after == before
            || (after == None && e.Delete? && Beneath(p, e.Dest().value))
            || (e.Chunk? && e.Dest() == Some(p) && Finalises(d, e.q, e.patch)
                && after == Some(File(Content(d, Part(p)) + Landed(d, e.q, e.patch))))
            || (e.Upload? && e.Dest() == Some(p) && PutSucceeds(d, Some(p), e.put)
                && after.Some? && after.value.File? && after.value.data <= e.body)
  {
  }

  /** No reader ever sees it half changed: in every state on the way a final file is what it was before the request
      or what it is after it. */
  lemma FinalFileIsNeverPartial(sha: Hash, d: Disk, e: Event, p: Path, x: Disk)
    requires ProperName(p) && (e.Dest().Some? ==> ProperName(e.Dest().value)) && Passes(sha, d, e, x)
    ensures Lookup(x, p) == Lookup(d, p) || Lookup(x, p) == Lookup(Apply(sha, d, e), p)
  {
    if e.Dest().Some? {
      NamesApart(e.Dest().value, p);
    }
  }

  // ---- targets do not interfere ----

  /** The three files that belong to a target. */
  ghost predicate SameTarget(d1: Disk, d2: Disk, t: Path) {
    Lookup(d1, t) == Lookup(d2, t) && Lookup(d1, Part(t)) == Lookup(d2, Part(t))
    && Lookup(d1, Sidecar(t)) == Lookup(d2, Sidecar(t))
  }

  predicate Strays(e: Event, t: Path) {
    e.Delete? && e.Dest().Some? && e.Dest().value != t && Beneath(t, e.Dest().value)
  }

  lemma BeneathTogether(t: Path, dir: Path, ext: seq<byte>)
    requires SLASH !in ext && dir != t + ext
    ensures Beneath(t + ext, dir) ==> Beneath(t, dir)
  {
    if dir + [SLASH] <= t + ext {
      assert (t + ext)[|dir|] == SLASH;
      if |dir| < |t| {
        assert (t + ext)[..|dir| + 1] == t[..|dir| + 1];
      }
    }
  }

  lemma ExtensionsAreFlat()
    ensures SLASH !in PART_EXT && SLASH !in SIDECAR_EXT
  {
  }

  lemma OtherTargetUntouched(sha: Hash, d: Disk, e: Event, t: Path)
    requires ProperName(t) && e.Dest() != Some(t) && !Strays(e, t)
    requires e.Dest().Some? ==> ProperName(e.Dest().value)
    ensures SameTarget(Apply(sha, d, e), d, t)
  {
    if e.Dest().Some? {
      var u := e.Dest().value;
      NamesApart(u, t);
      NamesApart(t, u);
      ExtensionsAreFlat();
      BeneathTogether(t, u, PART_EXT);
      BeneathTogether(t, u, SIDECAR_EXT);
    }
    OthersUntouched(sha, d, e, t);
    OthersUntouched(sha, d, e, Part(t));
    OthersUntouched(sha, d, e, Sidecar(t));
  }

  lemma ChunkIsLocal(sha: Hash, d1: Disk, d2: Disk, q: PatchReq, o: PatchOutcome, t: Path)
    requires SameTarget(d1, d2, t) && WellFormed(q) && q.target == Some(t)
    ensures ResumeReply(d1, q, o) == ResumeReply(d2, q, o)
    ensures SameTarget(Resume(sha, d1, q, o), Resume(sha, d2, q, o), t)
  {
    NamesApart(t, t);
    var w := Landed(d1, q, o);
    assert w == Landed(d2, q, o) && Content(d1, Part(t)) == Content(d2, Part(t));
    assert Accepted(d1, q, o) == Accepted(d2, q, o) && Finalises(d1, q, o) == Finalises(d2, q, o);
    if Finalises(d1, q, o) {
      FinishIsLocal(sha, d1, d2, q, o, t);
    }
  }

  lemma FinishIsLocal(sha: Hash, d1: Disk, d2: Disk, q: PatchReq, o: PatchOutcome, t: Path)
    requires SameTarget(d1, d2, t) && q.target == Some(t) && Finalises(d1, q, o) && Finalises(d2, q, o)
    requires Landed(d1, q, o) == Landed(d2, q, o) && Content(d1, Part(t)) == Content(d2, Part(t))
    ensures SameTarget(Resume(sha, d1, q, o), Resume(sha, d2, q, o), t)
  {
  }

  lemma DeleteIsLocal(d1: Disk, d2: Disk, o: DeleteOutcome, t: Path)
    requires SameTarget(d1, d2, t)
    ensures RemoveReply(d1, Some(t), o) == RemoveReply(d2, Some(t), o)
    ensures SameTarget(Remove(d1, Some(t), o), Remove(d2, Some(t), o), t)
  {
  }

  /** A request to a target sees and changes no more of the disk than that target's three files. */
  lemma RequestIsLocal(sha: Hash, d1: Disk, d2: Disk, e: Event, t: Path)
    requires SameTarget(d1, d2, t) && e.Dest() == Some(t)
    ensures Answer(d1, e) == Answer(d2, e)
    ensures SameTarget(Apply(sha, d1, e), Apply(sha, d2, e), t)
  {
    NamesApart(t, t);
    match e
    case Query(_, _) =>
    case Chunk(q, o) => ChunkIsLocal(sha, d1, d2, q, o, t);
    case Upload(_, _, _) =>
    case Delete(_, o) => DeleteIsLocal(d1, d2, o, t);
  }

  function OnTarget(es: seq<Event>, t: Path): seq<Event> {
    if es == [] then []
    else OnTarget(es[..|es| - 1], t) + if es[|es| - 1].Dest() == Some(t) then [es[|es| - 1]] else []
  }

  /** In any interleaving, a target's files end up as if its own requests had been the only ones. */
  lemma {:induction false} TargetsAreIndependent(sha: Hash, d: Disk, es: seq<Event>, t: Path)
    requires ProperName(t)
    requires forall i :: 0 <= i < |es| ==> !Strays(es[i], t) && (es[i].Dest().Some? ==> ProperName(es[i].Dest().value))
    ensures SameTarget(After(sha, d, es), After(sha, d, OnTarget(es, t)), t)
  {
    if es != [] {
      var front, e := es[..|es| - 1], es[|es| - 1];
      TargetsAreIndependent(sha, d, front, t);
      var d1, d2 := After(sha, d, front), After(sha, d, OnTarget(front, t));
      if e.Dest() == Some(t) {
        RequestIsLocal(sha, d1, d2, e, t);
        assert OnTarget(es, t)[..|OnTarget(es, t)| - 1] == OnTarget(front, t);
      } else {
        OtherTargetUntouched(sha, d1, e, t);
        assert OnTarget(es, t) == OnTarget(front, t);
      }
    }
  }

  // ---- a staged upload never outgrows its length ----

  /** On target t: chunks declare length n with a working Stat, and a failed PUT cleans up after itself. */
  predicate Bounded(e: Event, t: Path, n: nat) {
    e.Dest() == Some(t) ==>
      && (e.Chunk? ==> e.q.length == Some(n) && e.patch.statOk)
      && (e.Upload? ==> e.put.cleanupOk)
  }

  lemma {:induction false} StagedNeverOutgrows(sha: Hash, d: Disk, es: seq<Event>, t: Path, n: nat)
    requires ProperName(t) && |Content(d, Part(t))| <= n
    requires forall i :: 0 <= i < |es| ==> !Strays(es[i], t) && Bounded(es[i], t, n)
    requires forall i :: 0 <= i < |es| && es[i].Dest().Some? ==> ProperName(es[i].Dest().value)
    ensures |Content(After(sha, d, es), Part(t))| <= n
  {
    if es != [] {
      var front, e := es[..|es| - 1], es[|es| - 1];
      StagedNeverOutgrows(sha, d, front, t, n);
      var now := After(sha, d, front);
      assert !Strays(e, t) && Bounded(e, t, n);
      if e.Dest() == Some(t) {
        NamesApart(t, t);
        if e.Chunk? {
          StagedWithin(sha, now, e.q, e.patch);
        }
      } else {
        OtherTargetUntouched(sha, now, e, t);
      }
    }
  }

  lemma StagedWithin(sha: Hash, d: Disk, q: PatchReq, o: PatchOutcome)
    requires WellFormed(q) && o.statOk && |Content(d, Part(q.target.value))| <= q.length.value
    ensures |Content(Resume(sha, d, q, o), Part(q.target.value))| <= q.length.value
  {
  }

  /** A finished upload has the declared length exactly when what was staged did not exceed it. */
  lemma FinishedLengthExactly(sha: Hash, d: Disk, q: PatchReq, o: PatchOutcome)
    requires WellFormed(q) && o.statOk && Finalises(d, q, o)
    ensures var (t, d') := (q.target.value, Resume(sha, d, q, o));
            && IsFile(d', t)
            && |d'[t].data| == Max(StatSize(d, Part(t)), q.length.value)
            && (|d'[t].data| == q.length.value <==> StatSize(d, Part(t)) <= q.length.value)
  {
    NamesApart(q.target.value, q.target.value);
  }

  /** On target t there are only such chunks, queries and deletes. */
  predicate Resumed(e: Event, t: Path, n: nat) {
    Bounded(e, t, n) && (e.Dest() == Some(t) ==> !e.Upload?)
  }

  /** Over any run of chunks that declare length n, started within it, a final file has n bytes whenever there is one. */
  lemma {:induction false} EveryFinishedFileHasItsLength(sha: Hash, d: Disk, es: seq<Event>, t: Path, n: nat)
    requires ProperName(t) && |Content(d, Part(t))| <= n && (IsFile(d, t) ==> |d[t].data| == n)
    requires forall i :: 0 <= i < |es| ==> !Strays(es[i], t) && Resumed(es[i], t, n)
    requires forall i :: 0 <= i < |es| && es[i].Dest().Some? ==> ProperName(es[i].Dest().value)
    ensures IsFile(After(sha, d, es), t) ==> |After(sha, d, es)[t].data| == n
  {
    if es != [] {
      var front, e := es[..|es| - 1], es[|es| - 1];
      EveryFinishedFileHasItsLength(sha, d, front, t, n);
      StagedNeverOutgrows(sha, d, front, t, n);
      var now := After(sha, d, front);
      assert !Strays(e, t) && Resumed(e, t, n);
      if e.Dest() != Some(t) {
        OtherTargetUntouched(sha, now, e, t);
      } else if e.Chunk? {
        ChunkLeavesLength(sha, now, e.q, e.patch);
      }
    }
  }

  lemma ChunkLeavesLength(sha: Hash, d: Disk, q: PatchReq, o: PatchOutcome)
    requires WellFormed(q) && o.statOk && |Content(d, Part(q.target.value))| <= q.length.value
    ensures var (t, d') := (q.target.value, Resume(sha, d, q, o));
            IsFile(d', t) ==> |d'[t].data| == q.length.value || Lookup(d', t) == Lookup(d, t)
  {
    NamesApart(q.target.value, q.target.value);
    if Finalises(d, q, o) {
      FinishedLengthExactly(sha, d, q, o);
    }
  }

  /** An input outside the bound: a longer staging file is finalised as it is, over the declared length. */
  lemma OverlongStagingIsFinalised(sha: Hash, t: Path)
    ensures var d: Disk := map[Part(t) := File([7, 8])];
            var q := PatchReq(Some(t), Some(2), Some(1), []);
            var o := PatchOutcome(true, true, true, 0, 0, true, true, true, Written);
            && Finalises(d, q, o) && StatSize(d, Part(t)) > q.length.value
            && t in Resume(sha, d, q, o) && Resume(sha, d, q, o)[t] == File([7, 8])
  {
  }

  // ---- the integrity record ----

  /** Every sidecar on disk holds the digest of the file beside it. */
  ghost predicate Intact(sha: Hash, d: Disk) {
    forall t :: ProperName(t) && Sidecar(t) in d ==> RecordedRight(sha, d, t)
  }

  ghost predicate RecordedRight(sha: Hash, d: Disk, t: Path) {
    IsFile(d, t) && IsFile(d, Sidecar(t)) && ReadSidecar(d, t) == Hex(sha(Content(d, t)))
  }

  /** Sidecar writes and removals succeed, and targets have proper names. */
  predicate SidecarsWork(e: Event) {
    && (e.Dest().Some? ==> ProperName(e.Dest().value))
    && (e.Chunk? ==> e.patch.sidecar.Written?)
    && (e.Upload? ==> e.put.sidecar.Written?)
    && (e.Delete? ==> e.del.removeAll.None? && e.del.sidecarGone)
  }

  lemma RecordedElsewhere(sha: Hash, d: Disk, d': Disk, t: Path)
    requires Lookup(d', t) == Lookup(d, t) && Lookup(d', Sidecar(t)) == Lookup(d, Sidecar(t))
    ensures RecordedRight(sha, d', t) <==> RecordedRight(sha, d, t)
  {
  }

  lemma SavedIsRecorded(sha: Hash, d: Disk, t: Path, data: seq<byte>)
    requires IsFile(d, t) && d[t].data == data && !IsDir(d, Sidecar(t))
    ensures RecordedRight(sha, WriteSidecar(d, t, sha(data), Written), t)
  {
    NamesApart(t, t);
    SidecarReadsBack(d, t, sha(data));
  }

  lemma RequestKeepsIntact(sha: Hash, d: Disk, e: Event)
    requires Intact(sha, d) && SidecarsWork(e)
    ensures Intact(sha, Apply(sha, d, e))
  {
    var d' := Apply(sha, d, e);
    forall t | ProperName(t) && Sidecar(t) in d'
      ensures RecordedRight(sha, d', t)
    {
      if e.Dest() == Some(t) {
        OwnRequestKeepsRecord(sha, d, e, t);
      } else if Strays(e, t) {
        ExtensionsAreFlat();
        NamesApart(e.Dest().value, t);
        assert Beneath(Sidecar(t), e.Dest().value) by {
          assert e.Dest().value + [SLASH] <= t + SIDECAR_EXT;
        }
        RecordedElsewhere(sha, d, d', t);
      } else {
        OtherTargetUntouched(sha, d, e, t);
        RecordedElsewhere(sha, d, d', t);
      }
    }
  }

  lemma OwnRequestKeepsRecord(sha: Hash, d: Disk, e: Event, t: Path)
    requires Intact(sha, d) && SidecarsWork(e) && e.Dest() == Some(t)
    requires Sidecar(t) in Apply(sha, d, e)
    ensures RecordedRight(sha, Apply(sha, d, e), t)
  {
    NamesApart(t, t);
    var d' := Apply(sha, d, e);
    assert !IsDir(d, Sidecar(t)) by {
      if Sidecar(t) in d { assert RecordedRight(sha, d, t); }
    }
    match e
    case Query(_, _) =>
    case Chunk(q, o) =>
      if Finalises(d, q, o) {
        SavedIsRecorded(sha, Renamed(d, q, o), t, Content(Appended(d, q, o), Part(t)));
      } else {
        RecordedElsewhere(sha, d, d', t);
      }
    case Upload(_, body, o) =>
      if PutSucceeds(d, Some(t), o) {
        var data := body[..Min(o.take, |body|)];
        SavedIsRecorded(sha, Moved(d[Part(t) := File(data)], Part(t), t), t, data);
      } else {
        RecordedElsewhere(sha, d, d', t);
      }
    case Delete(_, o) =>
      RecordedElsewhere(sha, d, d', t);
  }

  /** Over any run of uploads, resumed uploads, config saves and deletes whose sidecar writes and removals
      succeed, every file that has a sidecar verifies. */
  lemma {:induction false} EveryRecordVerifies(sha: Hash, d: Disk, es: seq<Event>)
    requires Intact(sha, d) && forall i :: 0 <= i < |es| ==> SidecarsWork(es[i])
    ensures Intact(sha, After(sha, d, es))
    ensures forall t :: ProperName(t) && Sidecar(t) in After(sha, d, es) ==> Verify(sha, After(sha, d, es), t) == Some(true)
  {
    if es != [] {
      EveryRecordVerifies(sha, d, es[..|es| - 1]);
      RequestKeepsIntact(sha, After(sha, d, es[..|es| - 1]), es[|es| - 1]);
    }
    var now := After(sha, d, es);
    forall t | ProperName(t) && Sidecar(t) in now
      ensures Verify(sha, now, t) == Some(true)
    {
      assert RecordedRight(sha, now, t);
      assert |Hex(sha(Content(now, t)))| == 64;
    }
  }

  // ---- the audit trail ----

  datatype Row = Row(patch: bool, status: nat)

  /** What the middleware records: nothing for HEAD, nothing for a chunk answered 204 or 409. */
  function Audit(d: Disk, e: Event): seq<Row> {
    var status := Answer(d, e).status;
    if e.Query? || (e.Chunk? && (status == 204 || status == 409)) then [] else [Row(e.Chunk?, status)]
  }

  function Trail(sha: Hash, d: Disk, es: seq<Event>): seq<Row> {
    if es == [] then []
    else Trail(sha, d, es[..|es| - 1]) + Audit(After(sha, d, es[..|es| - 1]), es[|es| - 1])
  }

  /** How many rows record a PATCH answered 200 (ok) or anything else (not ok). */
  function PatchRows(rows: seq<Row>, ok: bool): nat {
    if rows == [] then 0
    else
      var r := rows[|rows| - 1];
      PatchRows(rows[..|rows| - 1], ok) + if r.patch && (r.status == 200) == ok then 1 else 0
  }

  predicate Completes(d: Disk, e: Event) {
    e.Chunk? && Finalises(d, e.q, e.patch)
  }

  predicate Fails(d: Disk, e: Event) {
    e.Chunk? && Answer(d, e).status >= 400 && Answer(d, e).status != 409
  }

  function Count(sha: Hash, d: Disk, es: seq<Event>, p: (Disk, Event) -> bool): nat {
    if es == [] then 0
    else
      var front, e := es[..|es| - 1], es[|es| - 1];
      Count(sha, d, front, p) + if p(After(sha, d, front), e) then 1 else 0
  }

  lemma PatchRowsAppend(rows: seq<Row>, more: seq<Row>, ok: bool)
    requires |more| <= 1
    ensures PatchRows(rows + more, ok) == PatchRows(rows, ok) + PatchRows(more, ok)
  {
    if more == [] {
      assert rows + more == rows;
    } else {
      assert (rows + more)[..|rows|] == rows;
    }
  }

  lemma AuditOfOne(d: Disk, e: Event)
    ensures |Audit(d, e)| <= 1
    ensures PatchRows(Audit(d, e), true) == if Completes(d, e) then 1 else 0
    ensures PatchRows(Audit(d, e), false) == if Fails(d, e) then 1 else 0
  {
  }

  /** Every PUT and DELETE is recorded with the status it was answered, every PATCH but 204 and 409 too; HEAD never. */
  lemma AuditRecords(d: Disk, e: Event)
    ensures e.Query? ==> Audit(d, e) == []
    ensures e.Upload? || e.Delete? ==> Audit(d, e) == [Row(false, Answer(d, e).status)]
    ensures e.Chunk? ==> Audit(d, e) == if Answer(d, e).status in {204, 409} then [] else [Row(true, Answer(d, e).status)]
  {
  }

  /** The audit trail of any run holds one 200 row for each completed resumable upload, one other row for each
      failed chunk that is not an offset mismatch, and no more rows for chunks. */
  lemma {:induction false} AuditCountsCompletions(sha: Hash, d: Disk, es: seq<Event>)
    ensures PatchRows(Trail(sha, d, es), true) == Count(sha, d, es, Completes)
    ensures PatchRows(Trail(sha, d, es), false) == Count(sha, d, es, Fails)
  {
    if es != [] {
      var front, e := es[..|es| - 1], es[|es| - 1];
      var now := After(sha, d, front);
      AuditCountsCompletions(sha, d, front);
      AuditOfOne(now, e);
      PatchRowsAppend(Trail(sha, d, front), Audit(now, e), true);
      PatchRowsAppend(Trail(sha, d, front), Audit(now, e), false);
    }
  }
}
