/** The browser's resumable upload against the server's handlers: one file, one target, any network. */
module Upload {
  import opened Bytes
  import opened Volume
  import opened Handlers
  import opened Server

  // ---- the session's invariant ----

  /** file.slice(offset): empty past the end. */
  function Slice(file: seq<byte>, offset: nat): seq<byte> {
    if offset <= |file| then file[offset..] else []
  }

  function ChunkReq(dest: Path, file: seq<byte>, offset: nat): PatchReq {
    PatchReq(Some(dest), Some(offset), Some(|file|), Slice(file, offset))
  }

  /** Nothing but the client's own bytes: a front of the file staged, the whole file under the final name. */
  ghost predicate SessionInv(d: Disk, dest: Path, file: seq<byte>) {
    && (dest in d ==> d[dest] == File(file))
    && (Part(dest) in d ==> d[Part(dest)].File? && d[Part(dest)].data <= file)
  }

  /** A chunk of this session, however it ends, passes only through states that keep the invariant, and never
      takes the finished file away. */
  lemma ChunkKeepsSession(sha: Hash, d: Disk, dest: Path, file: seq<byte>, offset: nat, o: PatchOutcome, x: Disk)
    requires SessionInv(d, dest, file) && o.statOk
    requires ResumePasses(sha, d, ChunkReq(dest, file, offset), o, x)
    ensures SessionInv(x, dest, file)
    ensures dest in d ==> dest in x
  {
    var q := ChunkReq(dest, file, offset);
    NamesApart(dest, dest);
    if Accepted(d, q, o) {
      StagedStaysFront(d, dest, file, offset, o);
    }
  }

  lemma StagedStaysFront(d: Disk, dest: Path, file: seq<byte>, offset: nat, o: PatchOutcome)
    requires SessionInv(d, dest, file) && o.statOk && Accepted(d, ChunkReq(dest, file, offset), o)
    ensures var q := ChunkReq(dest, file, offset);
            var staged := Content(d, Part(dest));
            && |staged| == offset <= |file| && staged + Slice(file, offset) == file
            && Landed(d, q, o) <= Slice(file, offset)
            && staged + Landed(d, q, o) <= file
            && (o.streamOk && NewSize(d, q, o) >= |file| ==> staged + Landed(d, q, o) == file)
  {
  }

  /** What the answers to a chunk mean to the client. */
  lemma ChunkAnswers(sha: Hash, d: Disk, dest: Path, file: seq<byte>, offset: nat, o: PatchOutcome)
    requires SessionInv(d, dest, file) && o.statOk
    ensures var q := ChunkReq(dest, file, offset);
            var r := ResumeReply(d, q, o);
            var d' := Resume(sha, d, q, o);
            && (200 <= r.status < 300 ==>
                  if r.complete == Some(true) || r.offset.value >= |file| then dest in d'
                  else r.offset == Some(StatSize(d', Part(dest))) && (dest in d' <==> dest in d))
            && (r.status == 200 ==> r.complete == Some(true))
            && (200 <= r.status < 300 ==> r.offset.Some?)
            && (!Finalises(d, q, o) ==> (dest in d' <==> dest in d))
            && (Finalises(d, q, o) ==> dest in d' && r.status == 200)
            && (200 <= r.status < 300 || r.status == 409 || r.status >= 400)
  {
  }

  /** An upload that is staged whole but was never finalised is completed by an empty chunk at its end. */
  lemma EmptyChunkFinishes(sha: Hash, d: Disk, dest: Path, file: seq<byte>, o: PatchOutcome)
    requires dest !in d && Part(dest) in d && d[Part(dest)] == File(file)
    requires o.mkdirOk && o.statOk && o.openOk && o.streamOk && o.hashOk && o.renameOk
    ensures var q := ChunkReq(dest, file, |file|);
            && q.body == []
            && ResumeReply(d, q, o) == Reply(200, Some(|file|), Some(true))
            && dest in Resume(sha, d, q, o) && Resume(sha, d, q, o)[dest] == File(file)
  {
  }

  // ---- the client ----

  /** A response header as JavaScript's Number sees it. */
  datatype Header = Absent | Junk | Value(n: int)

  /** An absent header is null, and Number(null) is 0: the fallback is used only for one that is present and
      not a finite non-negative number. */
  function Num(h: Header, fallback: nat): nat {
    match h
    case Absent => 0
    case Junk => fallback
    case Value(n) => if n >= 0 then n else fallback
  }

  /** A header that says a non-negative number is taken at its word; one that says anything else is not; and a missing
      one reads as 0, whatever the fallback. */
  lemma NumMeans(n: int, fallback: nat)
    ensures Num(Absent, fallback) == 0 && Num(Junk, fallback) == fallback
    ensures n >= 0 ==> Num(Value(n), fallback) == n
    ensures n < 0 ==> Num(Value(n), fallback) == fallback
  {
  }

  /** What the client makes of a response. */
  datatype Seen = Seen(status: nat, offset: nat, complete: bool)

  function Read(r: Reply, fallback: nat): Seen {
    Seen(r.status, Num(if r.offset.Some? then Value(r.offset.value) else Absent, fallback), r.complete == Some(true))
  }

  /** How an exchange ends for the client: the server's answer, no answer, or one from an intermediary. The
      request may have reached the server in the last two cases as well. */
  datatype Fate = Delivered | Lost(reached: bool) | Answered(status: nat, reached: bool)

  /** A chunk sent earlier, executed (again) by the server. */
  datatype Replay = Replay(index: nat, s: Stream, x: PatchFaults)

  datatype HeadExchange = HeadExchange(o: HeadOutcome, fate: Fate)

  /** One PATCH as the world treats it; earlier chunks may still arrive before or after it. */
  datatype PatchExchange = PatchExchange(before: seq<Replay>, s: Stream, x: PatchFaults, fate: Fate, after: seq<Replay>)

  /** Stat finds the staged file when it is there. */
  predicate Sound(e: PatchExchange) {
    && e.x.statOk
    && (forall i | 0 <= i < |e.before| :: e.before[i].x.statOk)
    && (forall i | 0 <= i < |e.after| :: e.after[i].x.statOk)
  }

  /** An intermediary answers with success for the server, without its headers. */
  predicate FalseSuccess(e: PatchExchange) { e.fate.Answered? && 200 <= e.fate.status < 300 }

  /** The one case in which such an answer is believed: with no header the offset reads as 0, and 0 is the end of
      an empty file. */
  predicate Misled(e: PatchExchange, file: seq<byte>) { FalseSuccess(e) && file == [] }

  /** Nothing of this exchange reaches the server. */
  predicate Unheard(e: PatchExchange) { |e.before| == 0 && |e.after| == 0 && !e.fate.Delivered? && !e.fate.reached }

  /** The connection drops before the chunk arrives, and works again for the HEAD. */
  predicate Interrupted(pe: PatchExchange, he: HeadExchange) { pe.fate.Lost? && Unheard(pe) && CleanHead(he) }

  predicate CleanHead(e: HeadExchange) { e.o == HeadOutcome(true, true) && e.fate.Delivered? }

  /** No old chunk turns up around this one, and only the server reports success. */
  predicate Alone(e: PatchExchange) { |e.before| == 0 && |e.after| == 0 && !FalseSuccess(e) }

  /** Nothing goes wrong with this chunk, wherever in the file it starts. */
  ghost predicate CleanPatch(e: PatchExchange, file: seq<byte>) {
    && e.fate.Delivered? && e.x.mkdirOk && e.x.openOk && e.x.hashOk && e.x.renameOk
    && forall k: nat :: Server.Flawless(e.s.(body := Slice(file, k)), Some(|Slice(file, k)|))
  }

  lemma {:induction false} FullBuffersDeliver(n: nat, m: nat)
    requires m <= n
    ensures Delivers(seq(n, _ => Arrival(BUF, More)), m)
  {
    if m > 0 {
      assert seq(n, _ => Arrival(BUF, More))[1..] == seq(n - 1, _ => Arrival(BUF, More));
      FullBuffersDeliver(n - 1, m - Min(BUF, m));
    }
  }

  /** Every file has exchanges that go undisturbed. */
  lemma CleanPatchExists(file: seq<byte>) returns (e: PatchExchange)
    ensures CleanPatch(e, file) && Alone(e) && Sound(e)
  {
    var s := Stream([], seq(|file|, _ => Arrival(BUF, More)), _ => DiskTick(None, true), true, true);
    e := PatchExchange([], s, PatchFaults(true, true, true, true, true, Written), Delivered, []);
    forall k: nat
      ensures Server.Flawless(e.s.(body := Slice(file, k)), Some(|Slice(file, k)|))
    {
      FullBuffersDeliver(|file|, |Slice(file, k)|);
    }
  }

  const MAX_ATTEMPTS: nat := 6

  function Backoff(attempt: nat): nat {
    var ms := 1000 * Pow2(attempt);
    if ms < 8000 then ms else 8000
  }

  function TotalBackoff(n: nat): nat {
    if n == 0 then 0 else TotalBackoff(n - 1) + Backoff(n - 1)
  }

  /** The most a run can have slept before this attempt: the last attempt does not sleep. */
  function Budget(attempt: nat): nat {
    TotalBackoff(Min(attempt, 5))
  }

  lemma BudgetStep(attempt: nat)
    requires attempt < MAX_ATTEMPTS
    ensures Budget(attempt + 1) == Budget(attempt) + if attempt < 5 then Backoff(attempt) else 0
    ensures Budget(attempt) <= Budget(attempt + 1) <= 23000
  {
  }

  /** 1 s, doubled each time, up to 8 s. */
  lemma BackoffTable()
    ensures Backoff(0) == 1000 && Backoff(1) == 2000 && Backoff(2) == 4000
    ensures forall n :: n >= 3 ==> Backoff(n) == 8000
    ensures TotalBackoff(5) == 23000
  {
    forall n | n >= 3
      ensures Backoff(n) == 8000
    {
      PowAtLeast(n);
    }
  }

  lemma {:induction false} PowAtLeast(n: nat)
    requires n >= 3
    ensures Pow2(n) >= 8
  {
    if n > 3 {
      PowAtLeast(n - 1);
    } else {
      assert Pow2(3) == 2 * Pow2(2) == 2 * (2 * Pow2(1));
    }
  }

  /** The offsets of the chunks that replays repeat; one that names no chunk repeats none. */
  function Replayed(rs: seq<Replay>, sent: seq<nat>): seq<nat> {
    if rs == [] then []
    else
      var last := rs[|rs| - 1];
      Replayed(rs[..|rs| - 1], sent) + if last.index < |sent| then [sent[last.index]] else []
  }

  ghost predicate AnyClean(env: nat -> PatchExchange, file: seq<byte>, n: nat) {
    exists i :: 0 <= i < n && CleanPatch(env(i), file)
  }

  lemma AnyCleanStep(env: nat -> PatchExchange, file: seq<byte>, n: nat)
    ensures AnyClean(env, file, n + 1) <==> AnyClean(env, file, n) || CleanPatch(env(n), file)
  {
  }

  /** What one turn of the upload loop leads to. */
  datatype Next = Resolved | Rejected | Again(offset: nat)

  class Client {
    const v: Vol
    const sha: Hash
    const dest: Path
    const file: seq<byte>
    /** The offsets of the chunks sent so far, and of those the server has executed, in its order. */
    var sent: seq<nat>
    ghost var executed: seq<nat>
    var patches: nat
    var heads: nat
    var slept: nat

    constructor (v: Vol, sha: Hash, dest: Path, file: seq<byte>)
      ensures this.v == v && this.sha == sha && this.dest == dest && this.file == file
      ensures sent == [] && executed == [] && patches == heads == slept == 0
    {
      this.v, this.sha, this.dest, this.file := v, sha, dest, file;
      sent, executed, patches, heads, slept := [], [], 0, 0, 0;
    }

    /** Every state of the disk since from was a good one. */
    ghost predicate Safe(from: nat)
      reads v
    {
      v.Valid() && from <= |v.history| && SessionInv(v.files, dest, file)
      && forall i :: from <= i < |v.history| ==> SessionInv(v.history[i], dest, file)
    }

    /** The server executes the chunk at this offset. */
    method Execute(offset: nat, s: Stream, x: PatchFaults, ghost from: nat, ghost safe: bool)
      returns (reply: Reply, ghost o: PatchOutcome)
      requires v.Valid() && x.statOk && (safe ==> Safe(from))
      modifies this`executed, v
      ensures v.Valid() && (safe ==> Safe(from) && (dest in old(v.files) ==> dest in v.files))
      ensures executed == old(executed) + [offset]
      ensures var q := ChunkReq(dest, file, offset);
              v.files == Resume(sha, old(v.files), q, o) && reply == ResumeReply(old(v.files), q, o)
      ensures WasGiven(o, x)
      ensures var q := ChunkReq(dest, file, offset);
              Server.Flawless(s.(body := q.body), Some(|q.body|)) && Accepted(old(v.files), q, o) && offset <= |file| ==>
                o.streamOk && Landed(old(v.files), q, o) == q.body
    {
      ghost var d, h := v.files, v.history;
      ghost var q := ChunkReq(dest, file, offset);
      executed := executed + [offset];
      if x.mkdirOk {
        reply, o := Chunk(v, sha, dest, q, offset, |file|, s.(body := Slice(file, offset)), x);
      } else {
        reply := Plain(500);
        o := PatchOutcome(false, true, x.openOk, 0, 0, false, x.hashOk, x.renameOk, x.sidecar);
      }
      if safe {
        forall i | |h| <= i < |v.history|
          ensures SessionInv(v.history[i], dest, file)
        {
          ChunkKeepsSession(sha, d, dest, file, offset, o, v.history[i]);
        }
        assert forall i :: from <= i < |h| ==> v.history[i] == h[i];
        ChunkKeepsSession(sha, d, dest, file, offset, o, v.files);
      }
    }

    /** The server executes the earlier chunks these replays name. */
    method RunReplays(rs: seq<Replay>, ghost from: nat, ghost safe: bool)
      requires v.Valid() && (forall i | 0 <= i < |rs| :: rs[i].x.statOk) && (safe ==> Safe(from))
      modifies this`executed, v
      ensures v.Valid() && (safe ==> Safe(from) && (dest in old(v.files) ==> dest in v.files))
      ensures |rs| == 0 ==> v.files == old(v.files)
      ensures executed == old(executed) + Replayed(rs, sent)
    {
      for i := 0 to |rs|
        invariant v.Valid() && (safe ==> Safe(from) && (dest in old(v.files) ==> dest in v.files))
        invariant i == 0 ==> v.files == old(v.files)
        invariant executed == old(executed) + Replayed(rs[..i], sent)
      {
        assert rs[..i + 1][..i] == rs[..i];
        if rs[i].index < |sent| {
          var _, _ := Execute(sent[rs[i].index], rs[i].s, rs[i].x, from, safe);
        }
      }
      assert rs[..|rs|] == rs;
    }

    /** head(): an answer of any status is believed. The client is told "complete" only when the file is there, and
        otherwise of the bytes staged, or of none if something stands in the way. */
    method Head(e: HeadExchange) returns (seen: Option<Seen>)
      modifies this`heads
      ensures heads == old(heads) + 1
      ensures seen.None? <==> e.fate.Lost?
      ensures seen.Some? ==> (seen.value.complete <==> e.fate.Delivered? && e.o.statDest && IsFile(v.files, dest))
      ensures seen.Some? && seen.value.complete ==> seen.value.offset == |Content(v.files, dest)|
      ensures seen.Some? && !seen.value.complete ==>
                seen.value.offset == if e.fate.Delivered? && e.o.statPart then StatSize(v.files, Part(dest)) else 0
    {
      heads := heads + 1;
      seen := match e.fate
        case Lost(_) => None
        case Answered(status, _) => Some(Read(Plain(status), 0))
        case Delivered => Some(Read(Handlers.Head(v.files, Some(dest), e.o), 0));
    }

    /** What the client is told of a chunk that met the disk d: nothing, another's word, or the server's answer. */
    ghost predicate Told(d: Disk, offset: nat, e: PatchExchange, seen: Option<Seen>) {
      match e.fate
      case Lost(_) => seen.None?
      case Answered(status, _) => seen == Some(Seen(status, 0, false))
      case Delivered =>
        exists o :: WasGiven(o, e.x) && seen == Some(Read(ResumeReply(d, ChunkReq(dest, file, offset), o), offset))
    }

    /** The chunk itself: it may or may not reach the server, and the answer may be the server's, another's or none. */
    method Send(offset: nat, e: PatchExchange, ghost from: nat, ghost safe: bool) returns (seen: Option<Seen>)
      requires v.Valid() && e.x.statOk && (safe ==> Safe(from))
      modifies this`executed, v
      ensures v.Valid()
      ensures safe ==> Safe(from) && (dest in old(v.files) ==> dest in v.files)
      ensures Told(old(v.files), offset, e, seen)
      ensures executed == old(executed) + if e.fate.Delivered? || e.fate.reached then [offset] else []
      ensures !e.fate.Delivered? && !e.fate.reached ==> v.files == old(v.files)
      ensures safe && !Misled(e, file) && Claims(seen) ==> dest in v.files
      ensures safe && !FalseSuccess(e) && Advances(seen) ==>
                seen.value.offset == StatSize(v.files, Part(dest)) && (dest in v.files <==> dest in old(v.files))
      ensures safe && CleanPatch(e, file) && offset == StatSize(old(v.files), Part(dest)) && dest !in old(v.files)
              ==> seen.Some? && seen.value.status == 200 && seen.value.complete
    {
      seen := None;
      ghost var d := v.files;
      if e.fate.Delivered? || e.fate.reached {
        var reply, o := Execute(offset, e.s, e.x, from, safe);
        if safe {
          ChunkAnswers(sha, d, dest, file, offset, o);
          if CleanPatch(e, file) && offset == StatSize(d, Part(dest)) && dest !in d {
            CleanChunkFinishes(d, offset, o);
          }
        }
        if e.fate.Delivered? {
          seen := Some(Read(reply, offset));
          assert WasGiven(o, e.x);
        }
      }
      if e.fate.Answered? {
        seen := Some(Read(Plain(e.fate.status), offset));
      }
    }

    /** The client takes this answer for the end of the upload. */
    predicate Claims(seen: Option<Seen>) {
      seen.Some? && 200 <= seen.value.status < 300 && (seen.value.complete || seen.value.offset >= |file|)
    }

    /** The client goes on from the offset this answer gives. */
    predicate Advances(seen: Option<Seen>) {
      seen.Some? && 200 <= seen.value.status < 300 && !(seen.value.complete || seen.value.offset >= |file|)
    }

    /** patch(): sends the rest of the file from offset. */
    method Patch(offset: nat, e: PatchExchange, ghost from: nat, ghost safe: bool)
      returns (seen: Option<Seen>, ghost met: Disk)
      requires v.Valid() && Sound(e) && (safe ==> Safe(from))
      modifies this`sent, this`executed, this`patches, v
      ensures v.Valid() && patches == old(patches) + 1 && sent == old(sent) + [offset]
      ensures safe ==> Safe(from) && (dest in old(v.files) ==> dest in v.files)
      ensures Told(met, offset, e, seen) && (|e.before| == 0 ==> met == old(v.files))
      ensures executed == old(executed) + Replayed(e.before, sent)
                          + (if e.fate.Delivered? || e.fate.reached then [offset] else []) + Replayed(e.after, sent)
      ensures Unheard(e) ==> v.files == old(v.files)
      ensures safe && !Misled(e, file) && Claims(seen) ==> dest in v.files
      ensures safe && Alone(e) && Advances(seen) ==>
                seen.value.offset == StatSize(v.files, Part(dest)) && (dest in v.files <==> dest in old(v.files))
      ensures safe && Alone(e) && CleanPatch(e, file) && offset == StatSize(old(v.files), Part(dest))
              && dest !in old(v.files)
              ==> seen.Some? && seen.value.status == 200 && seen.value.complete
    {
      sent := sent + [offset];
      patches := patches + 1;
      RunReplays(e.before, from, safe);
      met := v.files;
      seen := Send(offset, e, from, safe);
      RunReplays(e.after, from, safe);
    }

    lemma CleanChunkFinishes(d: Disk, offset: nat, o: PatchOutcome)
      requires SessionInv(d, dest, file) && dest !in d && offset == StatSize(d, Part(dest))
      requires o.statOk && o.mkdirOk && o.openOk && o.hashOk && o.renameOk
      requires Accepted(d, ChunkReq(dest, file, offset), o) && offset <= |file| ==>
                 o.streamOk && Landed(d, ChunkReq(dest, file, offset), o) == ChunkReq(dest, file, offset).body
      ensures Finalises(d, ChunkReq(dest, file, offset), o)
    {
    }

    /** The offset the server is asked for again, or the end: what a HEAD leads to. */
    ghost predicate Resynced(he: HeadExchange, next: Next)
      reads v
    {
      next == if he.fate.Lost? then Rejected
              else if he.fate.Delivered? && he.o.statDest && IsFile(v.files, dest) then Resolved
              else Again(if he.fate.Delivered? && he.o.statPart then StatSize(v.files, Part(dest)) else 0)
    }

    /** An answer that is neither a success nor an offset mismatch, or none. */
    predicate Fails(seen: Option<Seen>) {
      seen.None? || (!(200 <= seen.value.status < 300) && seen.value.status != 409)
    }

    /** One turn of the loop: send the rest, then either believe the new offset or ask for it again. Only a failure
        sleeps, and the last attempt's failure ends the run without asking. */
    method Turn(attempt: nat, offset: nat, pe: PatchExchange, he: HeadExchange, ghost from: nat, ghost safe: bool)
      returns (next: Next, ghost res: Option<Seen>, ghost met: Disk)
      requires v.Valid() && attempt < MAX_ATTEMPTS && Sound(pe) && (safe ==> Safe(from))
      modifies this, v
      ensures v.Valid() && (safe ==> Safe(from))
      ensures patches == old(patches) + 1 && sent == old(sent) + [offset]
      ensures Told(met, offset, pe, res) && (|pe.before| == 0 ==> met == old(v.files))
      ensures Claims(res) ==> next.Resolved?
      ensures Advances(res) ==> next == Again(res.value.offset)
      ensures Fails(res) && attempt == 5 ==> next.Rejected?
      ensures !(Claims(res) || Advances(res) || (Fails(res) && attempt == 5)) ==> Resynced(he, next)
      ensures slept == old(slept) + if Fails(res) && attempt < 5 then Backoff(attempt) else 0
      ensures heads == old(heads) + if Claims(res) || Advances(res) || (Fails(res) && attempt == 5) then 0 else 1
      ensures Unheard(pe) ==> v.files == old(v.files)
      ensures safe && next.Resolved? && !Misled(pe, file) ==> dest in v.files
      ensures (safe && Alone(pe) && CleanHead(he)
               && dest !in old(v.files) && offset == StatSize(old(v.files), Part(dest))) ==>
                || next.Resolved?
                || (!CleanPatch(pe, file) && next.Rejected? && attempt == 5)
                || (!CleanPatch(pe, file) && dest !in v.files && next == Again(StatSize(v.files, Part(dest))))
    {
      var answer, at := Patch(offset, pe, from, safe);
      res, met := answer, at;
      if answer.Some? && 200 <= answer.value.status < 300 {
        next := if answer.value.complete || answer.value.offset >= |file| then Resolved else Again(answer.value.offset);
        return;
      }
      if answer.None? || answer.value.status != 409 {
        if attempt == MAX_ATTEMPTS - 1 {
          next := Rejected;
          return;
        }
        slept := slept + Backoff(attempt);
      }
      var seen := Head(he);
      if seen.None? {
        next := Rejected;
        return;
      }
      next := if seen.value.complete then Resolved else Again(seen.value.offset);
    }

    /** What the loop needs of a turn. */
    method Attempt(attempt: nat, offset: nat, pe: PatchExchange, he: HeadExchange, ghost from: nat, ghost safe: bool)
      returns (next: Next)
      requires v.Valid() && attempt < MAX_ATTEMPTS && Sound(pe) && (safe ==> Safe(from))
      modifies this, v
      ensures v.Valid() && (safe ==> Safe(from))
      ensures patches == old(patches) + 1 && heads <= old(heads) + 1
      ensures slept <= old(slept) + if attempt < 5 then Backoff(attempt) else 0
      ensures safe && next.Resolved? && !Misled(pe, file) ==> dest in v.files
      ensures Misled(pe, file) ==> next.Resolved?
      ensures Unheard(pe) ==> v.files == old(v.files)
      ensures Interrupted(pe, he) && !IsFile(old(v.files), dest) ==>
                if attempt == 5 then next.Rejected? && heads == old(heads) && slept == old(slept)
                else next.Again? && heads == old(heads) + 1 && slept == old(slept) + Backoff(attempt)
      ensures (safe && Alone(pe) && CleanHead(he)
               && dest !in old(v.files) && offset == StatSize(old(v.files), Part(dest))) ==>
                || next.Resolved?
                || (!CleanPatch(pe, file) && next.Rejected? && attempt == 5)
                || (!CleanPatch(pe, file) && dest !in v.files && next == Again(StatSize(v.files, Part(dest))))
    {
      var n, res, met := Turn(attempt, offset, pe, he, from, safe);
      next := n;
    }

    /** No old chunk turns up, only the server reports success, and every HEAD is answered. */
    ghost predicate Quiet(headEnv: nat -> HeadExchange, patchEnv: nat -> PatchExchange) {
      forall i :: CleanHead(headEnv(i)) && Alone(patchEnv(i))
    }

    ghost predicate Cut(headEnv: nat -> HeadExchange, patchEnv: nat -> PatchExchange) {
      forall i, j :: Interrupted(patchEnv(i), headEnv(j))
    }

    ghost predicate NeverMisled(patchEnv: nat -> PatchExchange) { forall i :: !Misled(patchEnv(i), file) }

    /** The attempts, from the offset the first HEAD gave. */
    method Retry(first: nat, headEnv: nat -> HeadExchange, patchEnv: nat -> PatchExchange, ghost from: nat, ghost safe: bool)
      returns (resolved: bool)
      requires v.Valid() && patches == slept == 0 && heads == 1 && (safe ==> Safe(from))
      requires forall i :: Sound(patchEnv(i))
      modifies this, v
      ensures v.Valid() && (safe ==> Safe(from))
      ensures patches <= 6 && heads <= 7 && slept <= 23000
      ensures safe && resolved && NeverMisled(patchEnv) ==> dest in v.files
      ensures Misled(patchEnv(0), file) ==> resolved && (Unheard(patchEnv(0)) ==> v.files == old(v.files))
      ensures (&& safe && Quiet(headEnv, patchEnv) && AnyClean(patchEnv, file, 6)
               && dest !in old(v.files) && first == StatSize(old(v.files), Part(dest))) ==> resolved
      ensures Cut(headEnv, patchEnv) && !old(IsFile(v.files, dest)) ==>
                !resolved && v.files == old(v.files) && patches == heads == 6 && slept == 23000
    {
      ghost var quiet := safe && Quiet(headEnv, patchEnv) && dest !in v.files && first == StatSize(v.files, Part(dest));
      ghost var cut := Cut(headEnv, patchEnv) && !IsFile(v.files, dest);
      var offset := first;
      for attempt := 0 to MAX_ATTEMPTS
        invariant v.Valid() && (safe ==> Safe(from))
        invariant patches == attempt && heads <= attempt + 1
        invariant slept <= Budget(attempt) <= 23000
        invariant quiet ==> dest !in v.files && offset == StatSize(v.files, Part(dest))
        invariant quiet ==> !AnyClean(patchEnv, file, attempt)
        invariant attempt == 0 || cut ==> v.files == old(v.files)
        invariant cut ==> attempt < 6 && heads == attempt + 1 && slept == Budget(attempt)
        invariant Misled(patchEnv(0), file) ==> attempt == 0
      {
        BudgetStep(attempt);
        AnyCleanStep(patchEnv, file, attempt);
        var pe, he := patchEnv(attempt), headEnv(heads);
        assert Sound(pe) && (cut ==> Interrupted(pe, he)) && (quiet ==> CleanHead(he) && Alone(pe));
        var next := Attempt(attempt, offset, pe, he, from, safe);
        match next
        case Resolved => return true;
        case Rejected =>
          BackoffTable();
          return false;
        case Again(at) => offset := at;
      }
      resolved := false;
    }

    /** The upload loop. Started on a disk that holds nothing under the target but a front of the file (or the
        file itself), every state on the way is safe and success means the target is exactly the file. If in
        addition no old chunk turns up and every HEAD is answered, one undisturbed PATCH out of six is enough; if
        every chunk is cut off, the run ends after six, having slept 23 s. A file already under the target is taken
        for the upload: success, with nothing sent. So is an empty file whose chunk an intermediary answers with
        success: resolved, with nothing stored. */
    method ResumableUpload(headEnv: nat -> HeadExchange, patchEnv: nat -> PatchExchange) returns (resolved: bool)
      requires v.Valid() && sent == [] && patches == heads == slept == 0
      requires forall i :: Sound(patchEnv(i))
      modifies this, v
      ensures v.Valid()
      ensures patches <= 6 && heads <= 7 && slept <= 23000
      ensures old(SessionInv(v.files, dest, file)) ==> Safe(|old(v.history)|)
      ensures old(SessionInv(v.files, dest, file)) && resolved && NeverMisled(patchEnv) ==>
                dest in v.files && v.files[dest] == File(file)
      ensures CleanHead(headEnv(0)) && !old(IsFile(v.files, dest)) && Misled(patchEnv(0), file) && Unheard(patchEnv(0)) ==>
                resolved && v.files == old(v.files)
      ensures old(SessionInv(v.files, dest, file)) && Quiet(headEnv, patchEnv) && AnyClean(patchEnv, file, 6) ==> resolved
      ensures Cut(headEnv, patchEnv) && !old(IsFile(v.files, dest)) ==>
                !resolved && v.files == old(v.files) && patches == heads == 6 && slept == 23000
      ensures old(IsFile(v.files, dest)) && CleanHead(headEnv(0)) ==> resolved && patches == 0 && v.files == old(v.files)
    {
      ghost var from, safe := |v.history|, SessionInv(v.files, dest, file);
      assert Cut(headEnv, patchEnv) ==> Interrupted(patchEnv(0), headEnv(0));
      var seen := Head(headEnv(0));
      if seen.None? || seen.value.complete {
        return seen.Some?;
      }
      resolved := Retry(seen.value.offset, headEnv, patchEnv, from, safe);
    }
  }
}
