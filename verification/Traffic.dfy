/** An upload session on a busy server: its own chunks and queries, mixed with any requests to other targets. */
module Traffic {
  import opened Bytes
  import opened Volume
  import opened Handlers
  import opened Runs
  import opened Upload

  /** On the session's target only its own chunks, at any offset and however they end, and queries. */
  predicate InSession(e: Event, t: Path, file: seq<byte>) {
    e.Dest() == Some(t) ==>
      e.Query? || (e.Chunk? && e.q == ChunkReq(t, file, e.q.offset.value) && e.patch.statOk)
  }

  /** The client is told that the upload is complete. */
  predicate SaysComplete(r: Reply) {
    200 <= r.status < 300 && r.complete == Some(true)
  }

  /** While a request to another target is handled, the session's three files stay as they are. */
  lemma OtherTargetStays(sha: Hash, d: Disk, e: Event, t: Path, x: Disk)
    requires ProperName(t) && e.Dest() != Some(t) && !Strays(e, t) && Passes(sha, d, e, x)
    requires e.Dest().Some? ==> ProperName(e.Dest().value)
    ensures SameTarget(x, d, t)
  {
    OtherTargetUntouched(sha, d, e, t);
    if e.Dest().Some? {
      NamesApart(e.Dest().value, t);
      NamesApart(t, e.Dest().value);
    }
  }

  /** One request, in session or not, keeps the session in every state on its way. */
  lemma RequestKeepsSession(sha: Hash, d: Disk, e: Event, t: Path, file: seq<byte>, x: Disk)
    requires ProperName(t) && SessionInv(d, t, file) && !Strays(e, t) && InSession(e, t, file)
    requires e.Dest().Some? ==> ProperName(e.Dest().value)
    requires Passes(sha, d, e, x)
    ensures SessionInv(x, t, file) && (t in d ==> t in x)
  {
    if e.Dest() != Some(t) {
      OtherTargetStays(sha, d, e, t, x);
    } else if e.Chunk? {
      ChunkKeepsSession(sha, d, t, file, e.q.offset.value, e.patch, x);
    }
  }

  /** Any requests to other targets that leave this one's files alone, and the session's own. */
  predicate Mixed(es: seq<Event>, t: Path, file: seq<byte>) {
    forall i :: 0 <= i < |es| ==>
      && !Strays(es[i], t) && InSession(es[i], t, file)
      && (es[i].Dest().Some? ==> ProperName(es[i].Dest().value))
  }

  lemma {:induction false} SessionGoesOn(sha: Hash, d: Disk, es: seq<Event>, t: Path, file: seq<byte>)
    requires ProperName(t) && SessionInv(d, t, file) && Mixed(es, t, file)
    ensures SessionInv(After(sha, d, es), t, file) && (t in d ==> t in After(sha, d, es))
  {
    if es != [] {
      var front, e := es[..|es| - 1], es[|es| - 1];
      SessionGoesOn(sha, d, front, t, file);
      var now := After(sha, d, front);
      EndsInAState(sha, now, e);
      RequestKeepsSession(sha, now, e, t, file, Apply(sha, now, e));
    }
  }

  /** Once the client has been told so, the file is there. */
  lemma {:induction false} CompletionLasts(sha: Hash, d: Disk, es: seq<Event>, t: Path, file: seq<byte>, i: nat)
    requires ProperName(t) && SessionInv(d, t, file) && Mixed(es, t, file)
    requires i < |es| && es[i].Dest() == Some(t) && SaysComplete(Answer(After(sha, d, es[..i]), es[i]))
    ensures t in After(sha, d, es)
  {
    var n := |es| - 1;
    var front, e := es[..n], es[n];
    var now := After(sha, d, front);
    SessionGoesOn(sha, d, front, t, file);
    if i < n {
      assert front[..i] == es[..i] && front[i] == es[i];
      CompletionLasts(sha, d, front, t, file, i);
      EndsInAState(sha, now, e);
      RequestKeepsSession(sha, now, e, t, file, Apply(sha, now, e));
    } else {
      CompleteIsThere(sha, now, e, t, file);
    }
  }

  /** Whatever runs beside it and in whatever order chunks arrive, repeat and fail: in every state the disk passes
      through the target is safe, a finished file stays, and no answer ever claims a completion that did not happen. */
  lemma SessionSurvivesTraffic(sha: Hash, d: Disk, es: seq<Event>, t: Path, file: seq<byte>)
    requires ProperName(t) && SessionInv(d, t, file) && Mixed(es, t, file)
    ensures SessionInv(After(sha, d, es), t, file)
    ensures forall i, x :: 0 <= i < |es| && Passes(sha, After(sha, d, es[..i]), es[i], x) ==> SessionInv(x, t, file)
    ensures t in d ==> t in After(sha, d, es)
    ensures forall i :: 0 <= i < |es| && es[i].Dest() == Some(t) && SaysComplete(Answer(After(sha, d, es[..i]), es[i])) ==>
              t in After(sha, d, es) && After(sha, d, es)[t] == File(file)
  {
    SessionGoesOn(sha, d, es, t, file);
    forall i, x | 0 <= i < |es| && Passes(sha, After(sha, d, es[..i]), es[i], x)
      ensures SessionInv(x, t, file)
    {
      SessionGoesOn(sha, d, es[..i], t, file);
      RequestKeepsSession(sha, After(sha, d, es[..i]), es[i], t, file, x);
    }
    forall i | 0 <= i < |es| && es[i].Dest() == Some(t) && SaysComplete(Answer(After(sha, d, es[..i]), es[i]))
      ensures t in After(sha, d, es)
    {
      CompletionLasts(sha, d, es, t, file, i);
    }
  }

  lemma CompleteIsThere(sha: Hash, d: Disk, e: Event, t: Path, file: seq<byte>)
    requires SessionInv(d, t, file) && InSession(e, t, file) && e.Dest() == Some(t) && SaysComplete(Answer(d, e))
    ensures t in Apply(sha, d, e)
  {
    if e.Chunk? {
      ChunkAnswers(sha, d, t, file, e.q.offset.value, e.patch);
    }
  }
}
