/** The deploy volume as the handlers use it: named byte strings, changed one file-system call at a time. */
module Volume {
  import opened Bytes

  type Path = seq<byte>

  datatype Node = File(data: seq<byte>) | Dir

  type Disk = map<Path, Node>

  const PART_EXT: seq<byte> := B(".part")
  const SIDECAR_EXT: seq<byte> := B(".sha256")

  function Part(p: Path): Path { p + PART_EXT }

  function Sidecar(p: Path): Path { p + SIDECAR_EXT }

  const SYNC_EVERY: nat := 128 * 1024 * 1024
  const BUF: nat := 4 * 1024 * 1024
  const DIR_SIZE: nat := 4096

  /** What Stat reports. A directory's size is up to the file system; no claim depends on it. */
  function StatSize(d: Disk, p: Path): nat {
    if p !in d then 0
    else match d[p]
         case File(data) => |data|
         case Dir => DIR_SIZE
  }

  predicate IsFile(d: Disk, p: Path) { p in d && d[p].File? }

  predicate IsDir(d: Disk, p: Path) { p in d && d[p].Dir? }

  function Content(d: Disk, p: Path): seq<byte> { if IsFile(d, p) then d[p].data else [] }

  /** d with the file at p grown by w. */
  function Grow(d: Disk, p: Path, w: seq<byte>): Disk { d[p := File(Content(d, p) + w)] }

  /** How one read ends: more to come, end of stream, or an error. */
  datatype ReadEnd = More | Eof | Broken

  /** One read of the request body: at most n bytes arrive. */
  datatype Arrival = Arrival(n: nat, end: ReadEnd)

  /** What the disk does to one write and the sync that may follow it. */
  datatype DiskTick = DiskTick(short: Option<nat>, synced: bool)

  /** A request body behind an optional LimitReader; passed is what a TeeReader has fed to the hash. */
  class Source {
    var rest: seq<byte>
    var arrivals: seq<Arrival>
    var limit: Option<int>
    var passed: seq<byte>

    constructor (body: seq<byte>, arrivals: seq<Arrival>, limit: Option<int>)
      ensures rest == body && this.arrivals == arrivals && this.limit == limit && passed == []
    {
      rest, this.arrivals, this.limit, passed := body, arrivals, limit, [];
    }

    /** What reads can still return. */
    ghost function Avail(): seq<byte>
      reads this
    {
      Capped(rest, limit)
    }

    /** The end of the stream is not reported before everything has come. */
    ghost predicate Whole()
      reads this
    {
      Delivers(arrivals, |Avail()|)
    }

    /** Nor does a read break, up to the limit if that comes first, or to the reported end. */
    ghost predicate Flawless()
      reads this
    {
      Whole() && ((limit.Some? && limit.value <= |rest|) || Arrives(arrivals, |Avail()|))
    }

    method Read(max: nat) returns (b: seq<byte>, end: ReadEnd)
      modifies this
      ensures old(Avail()) == b + Avail() && |b| <= max
      ensures passed == old(passed) + b
      ensures end != Eof ==> |arrivals| < |old(arrivals)|
      ensures max == BUF ==>
                old(Arriving(Avail(), arrivals)) == b + if end == More then Arriving(Avail(), arrivals) else []
      ensures old(Whole()) && max == BUF ==> Whole() && (end == Eof ==> Avail() == [])
      ensures old(Flawless()) && max == BUF ==> end != Broken && (end == More ==> Flawless())
    {
      if limit.Some? && limit.value <= 0 {
        return [], Eof;
      }
      if arrivals == [] {
        return [], Eof;
      }
      var room := if limit.Some? && limit.value < max then limit.value else max;
      var n := Min(Min(arrivals[0].n, room), |rest|);
      CappedRest(rest, limit, n);
      b, end := rest[..n], arrivals[0].end;
      rest, arrivals, passed := rest[n..], arrivals[1..], passed + b;
      if limit.Some? {
        limit := Some(limit.value - n);
      }
    }
  }

  /** These arrivals bring n bytes before they end, and none of them breaks on the way. */
  predicate Delivers(arrivals: seq<Arrival>, n: nat) {
    n == 0 ||
    (arrivals != [] &&
     var k := Min(Min(arrivals[0].n, BUF), n);
     match arrivals[0].end
     case Broken => false
     case Eof => k == n
     case More => Delivers(arrivals[1..], n - k))
  }

  /** What of avail these arrivals bring, up to the end they report or the break. */
  function Arriving(avail: seq<byte>, arrivals: seq<Arrival>): seq<byte> {
    if avail == [] || arrivals == [] then []
    else
      var n := Min(Min(arrivals[0].n, BUF), |avail|);
      avail[..n] + if arrivals[0].end == More then Arriving(avail[n..], arrivals[1..]) else []
  }

  lemma {:induction false} DeliveredArrives(avail: seq<byte>, arrivals: seq<Arrival>)
    requires Delivers(arrivals, |avail|)
    ensures Arriving(avail, arrivals) == avail
  {
    if avail != [] {
      var n := Min(Min(arrivals[0].n, BUF), |avail|);
      if arrivals[0].end == More {
        DeliveredArrives(avail[n..], arrivals[1..]);
      }
      assert avail == avail[..n] + avail[n..];
    }
  }

  /** These arrivals bring n bytes, then report the end, and none of them breaks on the way. */
  predicate Arrives(arrivals: seq<Arrival>, n: nat) {
    if arrivals == [] then n == 0
    else
      var k := Min(Min(arrivals[0].n, BUF), n);
      match arrivals[0].end
      case Broken => false
      case Eof => k == n
      case More => Arrives(arrivals[1..], n - k)
  }

  function Capped(body: seq<byte>, limit: Option<int>): seq<byte> {
    if limit.None? then body
    else if limit.value <= 0 then []
    else body[..Min(|body|, limit.value)]
  }

  /** Taking n bytes off a capped body leaves the rest under what is left of the cap. */
  lemma CappedRest(body: seq<byte>, limit: Option<int>, n: nat)
    requires n <= |body| && (limit.Some? ==> n <= limit.value)
    ensures Capped(body, limit) == body[..n] + Capped(body[n..], if limit.Some? then Some(limit.value - n) else None)
  {
    var left := if limit.Some? then Some(limit.value - n) else None;
    if limit.None? || limit.value >= |body| {
      assert body == body[..n] + body[n..];
    } else if limit.value > 0 {
      assert body[..limit.value] == body[..n] + body[n..][..limit.value - n];
    }
  }

  class Vol {
    var files: Disk
    /** Every state the disk has been in, in order; the last one is the present. */
    ghost var history: seq<Disk>
    /** Bytes written through the open descriptor since its last sync, and the most there have ever been. */
    ghost var dirty: nat
    ghost var peak: nat

    /** The unsynced bytes have never reached 132 MiB. */
    ghost predicate Valid()
      reads this
    {
      history != [] && history[|history| - 1] == files && dirty <= peak < SYNC_EVERY + BUF
    }

    constructor (d: Disk)
      ensures Valid() && files == d && history == [d] && dirty == peak == 0
    {
      files, history, dirty, peak := d, [d], 0, 0;
    }

    method Set(d: Disk)
      requires Valid()
      modifies this`files, this`history
      ensures Valid() && files == d && history == old(history) + [d]
    {
      files := d;
      history := history + [d];
    }

    /** O_CREATE|O_APPEND, or O_CREATE|O_TRUNC when truncate is set; ok is the disk's say. */
    method Open(p: Path, truncate: bool, ok: bool) returns (usable: bool)
      requires Valid()
      modifies this
      ensures Valid()
      ensures usable <==> ok && !IsDir(old(files), p)
      ensures !usable ==> files == old(files) && history == old(history)
      ensures usable ==> dirty == 0 && history == old(history) + [files]
      ensures usable ==> files == old(files)[p := File(if truncate then [] else Content(old(files), p))]
    {
      usable := ok && !IsDir(files, p);
      if usable {
        dirty := 0;
        Set(files[p := File(if truncate then [] else Content(files, p))]);
      }
    }

    method Write(p: Path, b: seq<byte>, short: Option<nat>) returns (ok: bool, ghost landed: seq<byte>)
      requires Valid() && IsFile(files, p) && dirty + |b| < SYNC_EVERY + BUF
      modifies this
      ensures Valid() && landed <= b && (ok ==> landed == b)
      ensures files == Grow(old(files), p, landed) && history == old(history) + [files]
      ensures dirty == old(dirty) + |landed| && ok == short.None?
    {
      ok := short.None?;
      var w := if ok then b else b[..Min(short.value, |b|)];
      landed := w;
      dirty := dirty + |w|;
      peak := if dirty > peak then dirty else peak;
      Set(files[p := File(files[p].data + w)]);
    }

    method Sync(ok: bool) returns (done: bool)
      requires Valid()
      modifies this`dirty
      ensures Valid() && done == ok && dirty == if ok then 0 else old(dirty)
    {
      done := ok;
      if ok {
        dirty := 0;
      }
    }

    method Rename(from: Path, to: Path, ok: bool) returns (done: bool)
      requires Valid() && IsFile(files, from) && from != to
      modifies this`files, this`history
      ensures Valid() && (done <==> ok && !IsDir(old(files), to))
      ensures !done ==> files == old(files) && history == old(history)
      ensures done ==> files == Moved(old(files), from, to) && history == old(history) + [files]
    {
      done := ok && !IsDir(files, to);
      if done {
        Set(Moved(files, from, to));
      }
    }

    /** os.Remove, whose failure the callers ignore. */
    method Delete(p: Path, ok: bool)
      requires Valid()
      modifies this`files, this`history
      ensures Valid() && old(history) <= history
      ensures files == old(files) - (if ok then {p} else {}) && (!ok ==> files == old(files))
      ensures forall i :: |old(history)| <= i < |history| ==> history[i] == files
    {
      if ok {
        Set(files - {p});
      }
    }

    /** os.RemoveAll takes entries away one at a time, in an order of its own. */
    method RemoveAll(doomed: set<Path>)
      requires Valid()
      modifies this`files, this`history
      ensures Valid() && old(history) <= history && files == old(files) - doomed
      ensures forall i :: |old(history)| <= i < |history| ==> LessSome(old(files), history[i], doomed)
    {
      var todo := doomed;
      while todo != {}
        invariant Valid() && old(history) <= history && todo <= doomed
        invariant files == old(files) - (doomed - todo)
        invariant forall i :: |old(history)| <= i < |history| ==> LessSome(old(files), history[i], doomed)
        decreases todo
      {
        var p :| p in todo;
        todo := todo - {p};
        Set(files - {p});
      }
    }

    /** Writes b and, once 128 MiB are pending, syncs. */
    method WriteChunk(p: Path, b: seq<byte>, pending: nat, t: DiskTick)
      returns (ok: bool, pending': nat, ghost landed: seq<byte>)
      requires Valid() && IsFile(files, p)
      requires pending == dirty < SYNC_EVERY && |b| <= BUF
      modifies this
      ensures Valid() && landed <= b && (ok ==> landed == b && pending' == dirty < SYNC_EVERY)
      ensures ok ==> dirty == if old(dirty) + |b| >= 134217728 then 0 else old(dirty) + |b|
      ensures files == Grow(old(files), p, landed) && history == old(history) + [files]
      ensures t == DiskTick(None, true) ==> ok
      ensures t.short.Some? || (!t.synced && old(dirty) + |b| >= 134217728) ==> !ok
    {
      pending' := pending;
      ok, landed := Write(p, b, t.short);
      if !ok {
        return;
      }
      pending' := pending' + |b|;
      if pending' >= SYNC_EVERY {
        ok := Sync(t.synced);
        if !ok {
          return;
        }
        pending' := 0;
      }
    }

    /** One turn of the copy loop: read up to 4 MiB and write what came. */
    method CopyOnce(p: Path, src: Source, pending: nat, t: DiskTick)
      returns (ok: bool, b: seq<byte>, pending': nat, end: ReadEnd, ghost landed: seq<byte>)
      requires Valid() && IsFile(files, p) && pending == dirty < SYNC_EVERY
      modifies this, src
      ensures Valid() && landed <= b && old(src.Avail()) == b + src.Avail() && src.passed == old(src.passed) + b
      ensures ok ==> landed == b && pending' == dirty < SYNC_EVERY
      ensures |b| <= BUF
      ensures old(Arriving(src.Avail(), src.arrivals)) == b + if end == More then Arriving(src.Avail(), src.arrivals) else []
      ensures files == Grow(old(files), p, landed) && history == old(history) + if b == [] then [] else [files]
      ensures end != Eof ==> |src.arrivals| < |old(src.arrivals)|
      ensures t == DiskTick(None, true) ==> ok
      ensures old(src.Whole()) ==> src.Whole() && (end == Eof ==> src.Avail() == [])
      ensures old(src.Flawless()) ==> end != Broken && (end == More ==> src.Flawless())
    {
      GrowNothing(files, p);
      b, end := src.Read(BUF);
      ok, pending', landed := true, pending, [];
      if b != [] {
        ok, pending', landed := WriteChunk(p, b, pending, t);
      }
    }

    /** Streams src onto the end of p. However it ends, what reached the disk is the front of what the reader
        could give, and the count is that, less at most one buffer whose write failed; on success all of it is counted
        and synced. If the reader reports the end only at the end, success means that everything is copied, and if
        neither side fails there is success. */
    method CopyCountedSynced(p: Path, src: Source, ticks: nat -> DiskTick, finalSync: bool)
      returns (total: nat, ok: bool, ghost landed: seq<byte>)
      requires Valid() && IsFile(files, p) && dirty == 0
      modifies this, src
      ensures Valid() && total <= |landed| <= total + BUF
      ensures (forall i :: ticks(i) == DiskTick(None, true)) ==>
                total == |landed| && landed == old(Arriving(src.Avail(), src.arrivals))
      ensures Reached(old(files), old(history), old(src.Avail()), files, history, p, landed)
      ensures ok ==> total == |landed| && dirty == 0 && src.passed == old(src.passed) + landed
      ensures old(src.Flawless()) && finalSync && (forall i :: ticks(i) == DiskTick(None, true)) ==> ok
      ensures old(src.Whole()) && ok ==> landed == old(src.Avail())
    {
      var pending: nat := 0;
      var i: nat := 0;
      total, landed := 0, [];
      ghost var arriving := Arriving(src.Avail(), src.arrivals);
      ghost var whole, flawless := src.Whole(), src.Flawless();
      GrowNothing(files, p);
      while true
        invariant Valid() && IsFile(files, p) && pending == dirty < SYNC_EVERY && total == |landed|
        invariant Copied(old(files), old(history), old(src.Avail()), old(src.passed),
                         files, history, src.Avail(), src.passed, p, landed)
        invariant landed + Arriving(src.Avail(), src.arrivals) == arriving
        invariant (whole ==> src.Whole()) && (flawless ==> src.Flawless())
        decreases |src.arrivals|
      {
        ghost var was, d, h, avail, passed := landed, files, history, src.Avail(), src.passed;
        var wrote, b, left, end, w := CopyOnce(p, src, pending, ticks(i));
        i, pending := i + 1, left;
        landed := was + w;
        Behind(was, b, if end == More then Arriving(src.Avail(), src.arrivals) else []);
        CopyStep(old(files), old(history), old(src.Avail()), old(src.passed), d, h, avail, passed, p, was,
                 b, w, files, history, src.Avail(), src.passed);
        ok := wrote;
        if ok {
          total := total + |b|;
          if end == Eof {
            ok := Sync(finalSync);
          } else if end == Broken {
            ok := false;
          } else {
            continue;
          }
        }
        return;
      }
    }
  }

  lemma Behind(a: seq<byte>, b: seq<byte>, c: seq<byte>)
    ensures a + (b + c) == a + b + c && (c == [] ==> a + (b + c) == a + b)
  {
  }

  /** What reached the disk is the front of what could be read, and the history shows it growing. */
  ghost predicate Reached(d0: Disk, h0: seq<Disk>, avail0: seq<byte>, d: Disk, h: seq<Disk>, p: Path, landed: seq<byte>) {
    landed <= avail0 && d == Grow(d0, p, landed) && Growth(h0, h, d0, p, landed)
  }

  /** So far everything read has reached the disk and the hash. */
  ghost predicate Copied(d0: Disk, h0: seq<Disk>, avail0: seq<byte>, passed0: seq<byte>,
                         d: Disk, h: seq<Disk>, avail: seq<byte>, passed: seq<byte>, p: Path, landed: seq<byte>) {
    avail0 == landed + avail && passed == passed0 + landed && Reached(d0, h0, avail0, d, h, p, landed)
  }

  lemma CopyStep(d0: Disk, h0: seq<Disk>, avail0: seq<byte>, passed0: seq<byte>,
                 d: Disk, h: seq<Disk>, avail: seq<byte>, passed: seq<byte>, p: Path, was: seq<byte>,
                 b: seq<byte>, w: seq<byte>, d': Disk, h': seq<Disk>, avail': seq<byte>, passed': seq<byte>)
    requires Copied(d0, h0, avail0, passed0, d, h, avail, passed, p, was)
    requires avail == b + avail' && passed' == passed + b && w <= b
    requires d' == Grow(d, p, w) && h' == h + if b == [] then [] else [d']
    ensures Reached(d0, h0, avail0, d', h', p, was + w)
    ensures w == b ==> Copied(d0, h0, avail0, passed0, d', h', avail', passed', p, was + w)
    ensures avail' == [] && w == b ==> was + w == avail0
  {
    GrowTwice(d0, p, was, w);
    GrowthStep(h0, h, h', d0, p, was, w);
    ReadOn(avail0, was, avail, b, avail', w);
    assert passed0 + was + b == passed0 + (was + b);
  }

  lemma ReadOn(avail0: seq<byte>, was: seq<byte>, avail: seq<byte>, b: seq<byte>, avail': seq<byte>, w: seq<byte>)
    requires avail0 == was + avail && avail == b + avail' && w <= b
    ensures was + w <= avail0
    ensures w == b ==> avail0 == was + w + avail' && (avail' == [] ==> was + w == avail0)
  {
    assert avail0 == was + b + avail';
    assert was + w == avail0[..|was| + |w|];
  }

  /** x is d less some of ps. */
  ghost predicate LessSome(d: Disk, x: Disk, ps: set<Path>) {
    && (forall p :: p in x ==> p in d && x[p] == d[p])
    && (forall p :: p in d && p !in ps ==> p in x)
  }

  function Moved(d: Disk, from: Path, to: Path): Disk
    requires from in d
  {
    (d - {from})[to := d[from]]
  }

  lemma GrowNothing(d: Disk, p: Path)
    requires IsFile(d, p)
    ensures Grow(d, p, []) == d
  {
    assert Content(d, p) + [] == Content(d, p);
  }

  lemma GrowTwice(d: Disk, p: Path, v: seq<byte>, w: seq<byte>)
    ensures Grow(Grow(d, p, v), p, w) == Grow(d, p, v + w)
  {
    assert Content(d, p) + v + w == Content(d, p) + (v + w);
  }

  /** The states added between two histories all show p grown by some front of w. */
  ghost predicate Growth(before: seq<Disk>, after: seq<Disk>, first: Disk, p: Path, w: seq<byte>) {
    before <= after && forall i :: |before| <= i < |after| ==> GrownBy(first, after[i], p, w)
  }

  ghost predicate GrownBy(first: Disk, d: Disk, p: Path, w: seq<byte>) {
    && IsFile(d, p) && d == first[p := d[p]]
    && Content(first, p) <= d[p].data <= Content(first, p) + w
  }

  lemma GrowthStep(before: seq<Disk>, mid: seq<Disk>, after: seq<Disk>, first: Disk, p: Path, w: seq<byte>, x: seq<byte>)
    requires Growth(before, mid, first, p, w)
    requires after == mid || after == mid + [Grow(first, p, w + x)]
    ensures Growth(before, after, first, p, w + x)
  {
  }
}
