/** Whole runs of config saves and deletes on the deploy volume, mixed with any other requests: the config tree on
    disk is the encrypted store, and decrypts to the plaintext one. */
module ConfigRuns {
  import opened Bytes
  import opened Paths
  import opened Volume
  import opened Handlers
  import opened Server
  import opened ConfigHandlers
  import Config
  import Envelope
  import PlainStore
  import Resolve
  import Runs

  /** What stays fixed over a run. */
  datatype Setup = Setup(sha: Hash, codec: RawCodec, vault: Config.Vault, dataDir: seq<byte>) {
    function Root(): Path { Join(dataDir, B("config")) }
  }

  datatype Request =
    | Save(rel: seq<byte>, q: SaveReq, put: PutOutcome)
    | Delete(rel: seq<byte>, del: DeleteOutcome)
    | Other(e: Runs.Event)

  function Apply(w: Setup, d: Disk, r: Request): Disk {
    match r
    case Save(_, q, o) => ConfigPut(w.sha, w.codec, w.vault, d, q, o)
    case Delete(rel, o) => Remove(d, DeleteTarget(w.dataDir, B("config"), rel), o)
    case Other(e) => Runs.Apply(w.sha, d, e)
  }

  function After(w: Setup, d: Disk, rs: seq<Request>): Disk {
    if rs == [] then d else Apply(w, After(w, d, rs[..|rs| - 1]), rs[|rs| - 1])
  }

  /** The config files proper: neither staging files nor sidecars. */
  predicate IsConfig(w: Setup, p: Path) { Beneath(p, w.Root()) && ProperName(p) }

  /** A save goes where its path says and writes all its bytes, as HandleConfigPut does. */
  predicate SaveFits(w: Setup, d: Disk, r: Request) {
    r.Save? ==> r.q.target == FileTarget(w.dataDir, B("config"), r.rel) && WroteAll(w.codec, w.vault, d, r.q, r.put)
  }

  /** Besides, other requests that change files change no config file. */
  ghost predicate Fits(w: Setup, d: Disk, r: Request) {
    && SaveFits(w, d, r)
    && (r.Other? && !r.e.Query? ==> forall p :: IsConfig(w, p) ==> !Runs.Touches(r.e, p))
  }

  ghost predicate AllFit(w: Setup, d: Disk, rs: seq<Request>) {
    forall i :: 0 <= i < |rs| ==> Fits(w, After(w, d, rs[..i]), rs[i])
  }

  // ---- the run as operations on a store ----

  /** What a delete takes from the store: the target and all beneath it, if the target is there; when RemoveAll fails,
      what it had removed by then. */
  function Gone(d: Disk, target: Option<Path>, o: DeleteOutcome): set<Path> {
    if target.None? || !o.statOk || target.value !in d then {}
    else if o.removeAll.Some? then Below(d, target.value) * o.removeAll.value
    else Below(d, target.value)
  }

  /** A delete answered 204 takes exactly the config files at and beneath its target, any other answer but a failed
      RemoveAll none. */
  lemma DeleteTakes(d: Disk, target: Option<Path>, o: DeleteOutcome, p: Path)
    requires ProperName(p)
    ensures var (d', status) := (Remove(d, target, o), RemoveReply(d, target, o).status);
            && Runs.Lookup(d', p) == (if p in Gone(d, target, o) then None else Runs.Lookup(d, p))
            && (status == 204 && target.value in d ==> (p in Gone(d, target, o) <==> p in d && Beneath(p, target.value)))
            && (p in Gone(d, target, o) ==> status == 204 || (status == 500 && o.removeAll.Some?))
  {
    if target.Some? {
      NamesApart(target.value, p);
    }
  }

  function OpsOf(w: Setup, d: Disk, r: Request): seq<PlainStore.Op> {
    match r
    case Save(_, q, o) =>
      if q.target.None? || !q.bodyOk || !ProperName(q.target.value) then []
      else [PlainStore.Save(q.target.value, w.codec.parse(q.body[..Min(|q.body|, BODY_CAP)]), q.ivs, q.prevRead,
                            PutSucceeds(d, q.target, o))]
    case Delete(rel, o) => [PlainStore.Remove(Gone(d, DeleteTarget(w.dataDir, B("config"), rel), o))]
    case Other(_) => []
  }

  function Trace(w: Setup, d: Disk, rs: seq<Request>): seq<PlainStore.Op> {
    if rs == [] then []
    else Trace(w, d, rs[..|rs| - 1]) + OpsOf(w, After(w, d, rs[..|rs| - 1]), rs[|rs| - 1])
  }

  /** The config files on disk are exactly the store's, and parse to what it holds. */
  ghost predicate Holds(w: Setup, d: Disk, st: PlainStore.Store) {
    forall p :: IsConfig(w, p) ==> HoldsAt(w, d, st, p)
  }

  ghost predicate HoldsAt(w: Setup, d: Disk, st: PlainStore.Store, p: Path) {
    && (p in st <==> IsFile(d, p))
    && (p in st ==> OnDisk(w.codec, d, p) == Config.Raw(false, Some(st[p])))
  }

  lemma SaveTargets(w: Setup, rel: seq<byte>)
    ensures var t := FileTarget(w.dataDir, B("config"), rel); t.Some? ==> Beneath(t.value, w.Root())
  {
    ResolvesBeneathRoot(w.dataDir, B("config"), rel);
  }

  /** What a save prepares is what the store's own step would store. */
  lemma SavePrepares(w: Setup, d: Disk, st: PlainStore.Store, q: SaveReq, o: PutOutcome)
    requires Agrees(w.codec) && q.target.Some? && q.bodyOk && HoldsAt(w, d, st, q.target.value)
    ensures var t := q.target.value;
            var body := w.codec.parse(q.body[..Min(|q.body|, BODY_CAP)]);
            Prepared(w.codec, w.vault, q.ivs, d, t, q.body, q.prevRead)
            == Config.EncryptConfig(w.vault, q.ivs, body, PlainStore.PrevRaw(st, t, q.prevRead))
  {
    assert q.target.value !in st ==> Content(d, q.target.value) == [];
  }

  /** A save changes no config file but its own. */
  lemma SaveIsLocal(w: Setup, d: Disk, q: SaveReq, o: PutOutcome, p: Path)
    requires ProperName(p) && q.target != Some(p)
    ensures Runs.Lookup(ConfigPut(w.sha, w.codec, w.vault, d, q, o), p) == Runs.Lookup(d, p)
  {
    if !SaveRefused(w.codec, w.vault, d, q) {
      var e := Runs.Upload(q.target, Text(w.codec, w.vault, d, q), o);
      NamesApart(q.target.value, p);
      Runs.OthersUntouched(w.sha, d, e, p);
    }
  }

  lemma SameHolds(w: Setup, d: Disk, d': Disk, st: PlainStore.Store, p: Path)
    requires HoldsAt(w, d, st, p) && Runs.Lookup(d', p) == Runs.Lookup(d, p)
    ensures HoldsAt(w, d', st, p)
  {
  }

  lemma SaveStep(w: Setup, d: Disk, st: PlainStore.Store, q: SaveReq, o: PutOutcome, t: Path)
    requires Agrees(w.codec) && WroteAll(w.codec, w.vault, d, q, o)
    requires q.target == Some(t) && q.bodyOk && HoldsAt(w, d, st, t)
    ensures var op := PlainStore.Save(t, w.codec.parse(q.body[..Min(|q.body|, BODY_CAP)]), q.ivs, q.prevRead,
                                      PutSucceeds(d, q.target, o));
            && HoldsAt(w, ConfigPut(w.sha, w.codec, w.vault, d, q, o), PlainStore.Step(w.vault, st, op), t)
            && (ConfigPutReply(w.codec, w.vault, d, q, o).status == 201 <==> PlainStore.Accepted(w.vault, op))
  {
    var d' := ConfigPut(w.sha, w.codec, w.vault, d, q, o);
    var op := PlainStore.Save(t, w.codec.parse(q.body[..Min(|q.body|, BODY_CAP)]), q.ivs, q.prevRead,
                              PutSucceeds(d, q.target, o));
    SavePrepares(w, d, st, q, o);
    SavedIsOnDisk(w.sha, w.codec, w.vault, d, q, o);
    PlainStore.AcceptedExactly(w.vault, st, op);
    if ConfigPutReply(w.codec, w.vault, d, q, o).status != 201 {
      NamesApart(t, t);
      assert t in d' <==> t in d' - {Part(t)};
      assert t in d <==> t in d - {Part(t)};
      SameHolds(w, d, d', st, t);
    }
  }

  lemma RequestHolds(w: Setup, d: Disk, st: PlainStore.Store, r: Request)
    requires Agrees(w.codec) && Fits(w, d, r) && Holds(w, d, st)
    ensures var ops := OpsOf(w, d, r);
            |ops| <= 1 && Holds(w, Apply(w, d, r), if ops == [] then st else PlainStore.Step(w.vault, st, ops[0]))
  {
    var ops, d' := OpsOf(w, d, r), Apply(w, d, r);
    var st' := if ops == [] then st else PlainStore.Step(w.vault, st, ops[0]);
    forall p | IsConfig(w, p)
      ensures HoldsAt(w, d', st', p)
    {
      assert HoldsAt(w, d, st, p);
      match r
      case Save(rel, q, o) =>
        SaveTargets(w, rel);
        if q.target == Some(p) && q.bodyOk {
          SaveStep(w, d, st, q, o, p);
        } else if q.target != Some(p) {
          SaveIsLocal(w, d, q, o, p);
          SameHolds(w, d, d', st, p);
        }
      case Delete(rel, o) =>
        DeleteTakes(d, DeleteTarget(w.dataDir, B("config"), rel), o, p);
      case Other(e) =>
        if !e.Query? { Runs.OthersUntouched(w.sha, d, e, p); }
        SameHolds(w, d, d', st, p);
    }
  }

  lemma FrontFits(w: Setup, d: Disk, rs: seq<Request>)
    requires AllFit(w, d, rs) && rs != []
    ensures AllFit(w, d, rs[..|rs| - 1]) && Fits(w, After(w, d, rs[..|rs| - 1]), rs[|rs| - 1])
  {
    var front := rs[..|rs| - 1];
    forall i | 0 <= i < |front|
      ensures Fits(w, After(w, d, front[..i]), front[i])
    {
      assert front[..i] == rs[..i];
    }
  }

  lemma RunOneMore(v: Config.Vault, ops: seq<PlainStore.Op>, more: seq<PlainStore.Op>)
    requires |more| <= 1
    ensures PlainStore.Run(v, ops + more)
         == if more == [] then PlainStore.Run(v, ops) else PlainStore.Step(v, PlainStore.Run(v, ops), more[0])
  {
    if more == [] {
      assert ops + more == ops;
    } else {
      assert (ops + more)[..|ops|] == ops;
    }
  }

  /** After any run that starts without config files, those on disk are the ones of the encrypted store. */
  lemma {:induction false} DiskIsStore(w: Setup, d: Disk, rs: seq<Request>)
    requires Agrees(w.codec) && AllFit(w, d, rs) && Holds(w, d, map[])
    ensures Holds(w, After(w, d, rs), PlainStore.Run(w.vault, Trace(w, d, rs)))
  {
    if rs != [] {
      var n := |rs| - 1;
      var front, r := rs[..n], rs[n];
      FrontFits(w, d, rs);
      DiskIsStore(w, d, front);
      var now, ops := After(w, d, front), Trace(w, d, front);
      var more := OpsOf(w, now, r);
      RequestHolds(w, now, PlainStore.Run(w.vault, ops), r);
      RunOneMore(w.vault, ops, more);
    }
  }

  /** No save of the run submits what already looks like an envelope. */
  ghost predicate NoneSealed(ops: seq<PlainStore.Op>) {
    forall i :: 0 <= i < |ops| && ops[i].Save? && ops[i].body.doc.Some? ==> PlainStore.NoEnvelope(ops[i].body.doc.value)
  }

  /** On the volume itself: after any run of config saves, deletes and other requests, with any faults, each config
      file on disk parses, without a byte-order mark, to what decrypts to the plaintext machine's file; there is one
      exactly where that machine has one. */
  lemma DiskRefinesPlain(w: Setup, d: Disk, rs: seq<Request>)
    requires Agrees(w.codec) && AllFit(w, d, rs) && Holds(w, d, map[]) && NoneSealed(Trace(w, d, rs))
    ensures var (now, plain) := (After(w, d, rs), PlainStore.PlainRun(w.vault, Trace(w, d, rs)));
            forall p :: IsConfig(w, p) ==>
              && (IsFile(now, p) <==> p in plain)
              && (p in plain ==>
                    && OnDisk(w.codec, now, p).doc.Some? && !OnDisk(w.codec, now, p).bom
                    && PlainStore.Refines(w.vault, OnDisk(w.codec, now, p).doc.value, plain[p]))
  {
    DiskIsStore(w, d, rs);
    PlainStore.StoreRefinesPlain(w.vault, Trace(w, d, rs));
    var now := After(w, d, rs);
    assert forall p :: IsConfig(w, p) ==> HoldsAt(w, now, PlainStore.Run(w.vault, Trace(w, d, rs)), p);
  }

  // ---- the hypotheses can be met ----

  /** A password in the format of PassCodec is accepted over any file, if an IV can be drawn. */
  lemma PassIsAccepted(v: Config.Vault, ivs: Config.Ivs, body: seq<byte>, prev: Config.Raw)
    requires body != [] && ivs(PASS).Some?
    ensures Config.EncryptConfig(v, ivs, ParsePass(body), prev).Ok?
  {
    var un := Config.Unattend(ParsePass(body).doc.value).value;
    assert forall k :: k in un ==> k == PASS;
  }

  function OneSave(w: Setup, rel: seq<byte>, p: Path, s: seq<byte>, ivs: Config.Ivs): Request {
    var q := SaveReq(Some(p), [1] + s, ivs, true, true);
    var n := if SaveRefused(w.codec, w.vault, map[], q) then 0 else |Text(w.codec, w.vault, map[], q)|;
    Save(rel, q, PutOutcome(true, true, n, true, true, true, true, Written))
  }

  lemma OneSaveTrace(w: Setup, r: Request)
    ensures AllFit(w, map[], [r]) <==> Fits(w, map[], r)
    ensures After(w, map[], [r]) == Apply(w, map[], r)
    ensures Trace(w, map[], [r]) == OpsOf(w, map[], r)
  {
    assert [r][..0] == [];
    assert After(w, map[], [r][..0]) == map[];
    assert [] + OpsOf(w, map[], r) == OpsOf(w, map[], r);
  }

  /** On an empty volume, saving a password to any proper config path is a run of the kind above, and leaves the file
      there. */
  lemma OneSaveIsARun(w: Setup, rel: seq<byte>, p: Path, s: seq<byte>, ivs: Config.Ivs)
    requires w.codec == PassCodec() && FileTarget(w.dataDir, B("config"), rel) == Some(p) && ProperName(p)
    requires |s| < BODY_CAP && !Envelope.IsEncrypted(s) && ivs(PASS).Some?
    ensures var rs := [OneSave(w, rel, p, s, ivs)];
            && Agrees(w.codec) && AllFit(w, map[], rs) && Holds(w, map[], map[]) && NoneSealed(Trace(w, map[], rs))
            && IsFile(After(w, map[], rs), p)
  {
    SomeCodecAgrees();
    OneSaveFits(w, rel, p, s, ivs);
    OneSaveTrace(w, OneSave(w, rel, p, s, ivs));
  }

  lemma OneSaveFits(w: Setup, rel: seq<byte>, p: Path, s: seq<byte>, ivs: Config.Ivs)
    requires w.codec == PassCodec() && FileTarget(w.dataDir, B("config"), rel) == Some(p) && ProperName(p)
    requires |s| < BODY_CAP && !Envelope.IsEncrypted(s) && ivs(PASS).Some?
    ensures var r := OneSave(w, rel, p, s, ivs);
            Fits(w, map[], r) && NoneSealed(OpsOf(w, map[], r)) && IsFile(Apply(w, map[], r), p)
  {
    var r, body := OneSave(w, rel, p, s, ivs), [1] + s;
    assert body[..Min(|body|, BODY_CAP)] == body;
    PassIsAccepted(w.vault, ivs, body, OnDisk(w.codec, map[], p));
    ClearPass(s);
    SaveLands(w, p, r.q, r.put);
  }

  lemma SaveLands(w: Setup, p: Path, q: SaveReq, o: PutOutcome)
    requires q.target == Some(p) && !SaveRefused(w.codec, w.vault, map[], q)
    requires o.mkdirOk && o.createOk && o.streamOk && o.closeOk && o.renameOk
    ensures IsFile(ConfigPut(w.sha, w.codec, w.vault, map[], q, o), p)
  {
    PutLeaves(w.sha, map[], p, Text(w.codec, w.vault, map[], q), o);
  }

  lemma ClearPass(s: seq<byte>)
    requires !Envelope.IsEncrypted(s)
    ensures ParsePass([1] + s).doc == Some(OnePass(s)) && PlainStore.NoEnvelope(OnePass(s))
  {
    assert ([1] + s)[1..] == s;
    assert Config.Unattend(OnePass(s)) == Some(map[PASS := Config.Str(s)]);
  }

  // ---- secrets on disk ----

  /** A text that parses to no secret in the clear. */
  ghost predicate SealedText(c: RawCodec, b: seq<byte>) {
    c.parse(b).doc.Some? ==> PlainStore.SecretsSealed(c.parse(b).doc.value)
  }

  ghost predicate SealedAt(w: Setup, d: Disk, p: Path) {
    IsFile(d, p) ==> SealedText(w.codec, d[p].data)
  }

  /** No config file holds a secret in the clear. */
  ghost predicate SealedDisk(w: Setup, d: Disk) {
    forall p :: IsConfig(w, p) ==> SealedAt(w, d, p)
  }

  predicate ConfigTarget(w: Setup, target: Option<Path>) { target.Some? && IsConfig(w, target.value) }

  /** What the file upload endpoints put under a config file's name is sealed already. */
  ghost predicate RawSeals(w: Setup, d: Disk, e: Runs.Event) {
    match e
    case Upload(t, body, o) =>
      ConfigTarget(w, t) && PutSucceeds(d, t, o) ==> SealedText(w.codec, body[..Min(o.take, |body|)])
    case Chunk(q, o) =>
      ConfigTarget(w, q.target) && Finalises(d, q, o) ==>
        SealedText(w.codec, Content(d, Part(q.target.value)) + Landed(d, q, o))
    case _ => true
  }

  /** There is a key, or a save that succeeds submits nothing in the clear. */
  predicate SaveSeals(w: Setup, d: Disk, q: SaveReq, o: PutOutcome) {
    ConfigTarget(w, q.target) && !SaveRefused(w.codec, w.vault, d, q) && PutSucceeds(d, q.target, o) ==>
      w.vault.master.Some? || PlainStore.SubmitsSealed(w.codec.parse(q.body[..Min(|q.body|, BODY_CAP)]).doc.value)
  }

  ghost predicate Seals(w: Setup, d: Disk, r: Request) {
    match r
    case Save(_, q, o) => SaveSeals(w, d, q, o)
    case Delete(_, _) => true
    case Other(e) => RawSeals(w, d, e)
  }

  /** A request's own target apart, config files stay as they are or go. */
  lemma OtherConfigsStay(w: Setup, d: Disk, e: Runs.Event, p: Path)
    requires ProperName(p) && (e.Upload? || e.Chunk?) && e.Dest() != Some(p)
    ensures Runs.Lookup(Runs.Apply(w.sha, d, e), p) == Runs.Lookup(d, p)
  {
    if e.Dest().Some? {
      NamesApart(e.Dest().value, p);
    }
    Runs.OthersUntouched(w.sha, d, e, p);
  }

  lemma SealedAtSame(w: Setup, d: Disk, d': Disk, p: Path)
    requires SealedAt(w, d, p)
    requires Runs.Lookup(d', p) == Runs.Lookup(d, p) || Runs.Lookup(d', p) == None
    ensures SealedAt(w, d', p)
  {
  }

  /** What a whole PUT leaves under its own name. */
  lemma PutLeaves(sha: Hash, d: Disk, t: Path, body: seq<byte>, o: PutOutcome)
    ensures var d' := Put(sha, d, Some(t), body, o);
            Runs.Lookup(d', t)
            == if PutSucceeds(d, Some(t), o) then Some(File(body[..Min(o.take, |body|)])) else Runs.Lookup(d, t)
  {
    NamesApart(t, t);
  }

  lemma ChunkLeaves(sha: Hash, d: Disk, q: PatchReq, o: PatchOutcome)
    requires q.target.Some?
    ensures var (d', t) := (Resume(sha, d, q, o), q.target.value);
            Runs.Lookup(d', t)
            == if Finalises(d, q, o) then Some(File(Content(d, Part(t)) + Landed(d, q, o))) else Runs.Lookup(d, t)
  {
    NamesApart(q.target.value, q.target.value);
  }

  /** An upload through the file endpoints keeps the config files sealed exactly when what it stores is. */
  lemma RawUploadSealsExactly(w: Setup, d: Disk, e: Runs.Event)
    requires SealedDisk(w, d)
    ensures SealedDisk(w, Runs.Apply(w.sha, d, e)) <==> RawSeals(w, d, e)
  {
    var d' := Runs.Apply(w.sha, d, e);
    match e
    case Upload(t, body, o) =>
      if t.Some? { PutLeaves(w.sha, d, t.value, body, o); }
      OwnFileDecides(w, d, e, t);
    case Chunk(q, o) =>
      if q.target.Some? { ChunkLeaves(w.sha, d, q, o); }
      OwnFileDecides(w, d, e, q.target);
    case Delete(t, o) =>
      forall p | IsConfig(w, p)
        ensures SealedAt(w, d', p)
      {
        DeleteTakes(d, t, o, p);
        SealedAtSame(w, d, d', p);
      }
    case Query(_, _) =>
  }

  /** Of the config files only the one a PUT or PATCH names can stop being sealed. */
  lemma OwnFileDecides(w: Setup, d: Disk, e: Runs.Event, t: Option<Path>)
    requires SealedDisk(w, d) && (e.Upload? || e.Chunk?)
    requires t == if e.Chunk? then e.q.target else e.target
    ensures SealedDisk(w, Runs.Apply(w.sha, d, e)) <==> ConfigTarget(w, t) ==> SealedAt(w, Runs.Apply(w.sha, d, e), t.value)
  {
    var d' := Runs.Apply(w.sha, d, e);
    forall p | IsConfig(w, p) && t != Some(p)
      ensures SealedAt(w, d', p)
    {
      OtherConfigsStay(w, d, e, p);
      SealedAtSame(w, d, d', p);
    }
  }

  /** A config save keeps the config files sealed exactly when there is a key or nothing is submitted in the clear. */
  lemma SaveOnDiskSealsExactly(w: Setup, d: Disk, q: SaveReq, o: PutOutcome)
    requires Agrees(w.codec) && SealedDisk(w, d) && WroteAll(w.codec, w.vault, d, q, o)
    requires q.target.Some? ==> Beneath(q.target.value, w.Root())
    ensures SealedDisk(w, ConfigPut(w.sha, w.codec, w.vault, d, q, o)) <==> SaveSeals(w, d, q, o)
  {
    if !SaveRefused(w.codec, w.vault, d, q) {
      var out := Text(w.codec, w.vault, d, q);
      var e := Runs.Upload(q.target, out, o);
      assert Runs.Apply(w.sha, d, e) == ConfigPut(w.sha, w.codec, w.vault, d, q, o);
      RawUploadSealsExactly(w, d, e);
      if ConfigTarget(w, q.target) && PutSucceeds(d, q.target, o) {
        assert out[..Min(o.take, |out|)] == out;
        PreparedSealsExactly(w, d, q);
      }
    }
  }

  lemma PreparedSealsExactly(w: Setup, d: Disk, q: SaveReq)
    requires Agrees(w.codec) && SealedDisk(w, d) && ConfigTarget(w, q.target) && !SaveRefused(w.codec, w.vault, d, q)
    ensures SealedText(w.codec, Text(w.codec, w.vault, d, q)) <==>
            w.vault.master.Some? || PlainStore.SubmitsSealed(w.codec.parse(q.body[..Min(|q.body|, BODY_CAP)]).doc.value)
  {
    var t := q.target.value;
    var body := q.body[..Min(|q.body|, BODY_CAP)];
    var prev := if q.prevRead then Content(d, t) else [];
    assert SealedAt(w, d, t);
    assert RoundTrips(w.codec, Config.EncryptConfig(w.vault, q.ivs, w.codec.parse(body), w.codec.parse(prev)));
    PlainStore.SaveSealsExactly(w.vault, q.ivs, w.codec.parse(body), w.codec.parse(prev));
  }

  /** One request of any kind keeps the config files sealed exactly when it stores nothing in the clear. */
  lemma RequestSealsExactly(w: Setup, d: Disk, r: Request)
    requires Agrees(w.codec) && SealedDisk(w, d) && SaveFits(w, d, r)
    ensures SealedDisk(w, Apply(w, d, r)) <==> Seals(w, d, r)
  {
    match r
    case Save(rel, q, o) =>
      SaveTargets(w, rel);
      SaveOnDiskSealsExactly(w, d, q, o);
    case Delete(rel, o) =>
      var target := DeleteTarget(w.dataDir, B("config"), rel);
      RawUploadSealsExactly(w, d, Runs.Delete(target, o));
    case Other(e) =>
      RawUploadSealsExactly(w, d, e);
  }

  /** Nor is there a secret in the clear under a config file's name while a request is being handled. A config save is
      handled as an Upload of the text it prepared. */
  lemma SealedOnTheWay(w: Setup, d: Disk, e: Runs.Event, x: Disk)
    requires SealedDisk(w, d) && SealedDisk(w, Runs.Apply(w.sha, d, e)) && Runs.Passes(w.sha, d, e, x)
    requires e.Dest().Some? ==> ProperName(e.Dest().value)
    ensures SealedDisk(w, x)
  {
    forall p | IsConfig(w, p)
      ensures SealedAt(w, x, p)
    {
      assert SealedAt(w, d, p) && SealedAt(w, Runs.Apply(w.sha, d, e), p);
      Runs.FinalFileIsNeverPartial(w.sha, d, e, p, x);
    }
  }

  ghost predicate SealedThroughout(w: Setup, d: Disk, rs: seq<Request>) {
    forall i :: 0 <= i <= |rs| ==> SealedDisk(w, After(w, d, rs[..i]))
  }

  ghost predicate AllSeal(w: Setup, d: Disk, rs: seq<Request>) {
    forall i :: 0 <= i < |rs| ==> Seals(w, After(w, d, rs[..i]), rs[i])
  }

  ghost predicate SavesFit(w: Setup, d: Disk, rs: seq<Request>) {
    forall i :: 0 <= i < |rs| ==> SaveFits(w, After(w, d, rs[..i]), rs[i])
  }

  /** Over any run, raw uploads to config files included: no config file ever holds a secret in the clear exactly when
      no request stores one. */
  lemma {:induction false} RunSealsExactly(w: Setup, d: Disk, rs: seq<Request>)
    requires Agrees(w.codec) && SealedDisk(w, d) && SavesFit(w, d, rs)
    ensures SealedThroughout(w, d, rs) <==> AllSeal(w, d, rs)
  {
    if rs == [] {
      assert rs[..0] == [];
    } else {
      var n := |rs| - 1;
      var front, now := rs[..n], After(w, d, rs[..n]);
      FrontSavesFit(w, d, rs);
      RunSealsExactly(w, d, front);
      ThroughoutOneMore(w, d, rs);
      AllSealOneMore(w, d, rs);
      if SealedThroughout(w, d, front) {
        assert front[..n] == front;
        assert SealedDisk(w, now);
        RequestSealsExactly(w, now, rs[n]);
      }
    }
  }

  lemma FrontSavesFit(w: Setup, d: Disk, rs: seq<Request>)
    requires SavesFit(w, d, rs) && rs != []
    ensures SavesFit(w, d, rs[..|rs| - 1]) && SaveFits(w, After(w, d, rs[..|rs| - 1]), rs[|rs| - 1])
  {
    var front := rs[..|rs| - 1];
    forall i | 0 <= i < |front|
      ensures SaveFits(w, After(w, d, front[..i]), front[i])
    {
      assert front[..i] == rs[..i];
    }
  }

  lemma ThroughoutOneMore(w: Setup, d: Disk, rs: seq<Request>)
    requires rs != []
    ensures SealedThroughout(w, d, rs) <==> SealedThroughout(w, d, rs[..|rs| - 1]) && SealedDisk(w, After(w, d, rs))
  {
    if SealedThroughout(w, d, rs) {
      SealedBefore(w, d, rs);
    } else if SealedThroughout(w, d, rs[..|rs| - 1]) {
      var i :| 0 <= i <= |rs| && !SealedDisk(w, After(w, d, rs[..i]));
      UnsealedAt(w, d, rs, i);
    }
  }

  lemma SealedBefore(w: Setup, d: Disk, rs: seq<Request>)
    requires rs != [] && SealedThroughout(w, d, rs)
    ensures SealedThroughout(w, d, rs[..|rs| - 1]) && SealedDisk(w, After(w, d, rs))
  {
    var front := rs[..|rs| - 1];
    assert rs[..|rs|] == rs;
    forall i | 0 <= i <= |front|
      ensures SealedDisk(w, After(w, d, front[..i]))
    {
      assert front[..i] == rs[..i];
    }
  }

  lemma UnsealedAt(w: Setup, d: Disk, rs: seq<Request>, i: nat)
    requires rs != [] && i <= |rs| && !SealedDisk(w, After(w, d, rs[..i]))
    ensures SealedThroughout(w, d, rs[..|rs| - 1]) ==> !SealedDisk(w, After(w, d, rs))
  {
    if i == |rs| {
      assert rs[..i] == rs;
    } else {
      assert rs[..|rs| - 1][..i] == rs[..i];
    }
  }

  lemma AllSealOneMore(w: Setup, d: Disk, rs: seq<Request>)
    requires rs != []
    ensures var front := rs[..|rs| - 1];
            AllSeal(w, d, rs) <==> AllSeal(w, d, front) && Seals(w, After(w, d, front), rs[|rs| - 1])
  {
    var n := |rs| - 1;
    var front := rs[..n];
    forall i | 0 <= i < n
      ensures front[..i] == rs[..i] && front[i] == rs[i]
    {
    }
    if AllSeal(w, d, rs) {
      forall i | 0 <= i < n
        ensures Seals(w, After(w, d, front[..i]), front[i])
      {
        assert Seals(w, After(w, d, rs[..i]), rs[i]);
      }
    }
    if AllSeal(w, d, front) && Seals(w, After(w, d, front), rs[n]) {
      forall i | 0 <= i < n + 1
        ensures Seals(w, After(w, d, rs[..i]), rs[i])
      {
        if i < n { assert Seals(w, After(w, d, front[..i]), front[i]); }
      }
    }
  }

  /** With a key, no run leaves a secret of any config file in the clear, whatever the saves submit, as long as what is
      uploaded straight to config files is sealed. */
  lemma SecretsSealedOnDisk(w: Setup, d: Disk, rs: seq<Request>)
    requires Agrees(w.codec) && SealedDisk(w, d) && SavesFit(w, d, rs) && w.vault.master.Some?
    requires forall i :: 0 <= i < |rs| && rs[i].Other? ==> RawSeals(w, After(w, d, rs[..i]), rs[i].e)
    ensures SealedThroughout(w, d, rs)
  {
    RunSealsExactly(w, d, rs);
  }

  /** An input outside that bound: a PUT to the file endpoint stores a password in the clear under a config file's name. */
  lemma RawUploadStoresInTheClear(w: Setup, p: Path)
    requires w.codec == PassCodec() && IsConfig(w, p)
    ensures var put := PutOutcome(true, true, 2, true, true, true, true, Written);
            && SealedDisk(w, map[])
            && !SealedDisk(w, Apply(w, map[], Other(Runs.Upload(Some(p), [1, 7], put))))
  {
    var body: seq<byte> := [1, 7];
    var put := PutOutcome(true, true, 2, true, true, true, true, Written);
    RawUploadSealsExactly(w, map[], Runs.Upload(Some(p), body, put));
    assert body[..2] == body && body[1..] == [7];
    assert Config.Unattend(OnePass([7])) == Some(map[PASS := Config.Str([7])]);
    PassIsSecret();
  }

  // ---- the API on the same volume ----

  /** readConfigFile: None when there is no such file. */
  function ReadConfigFile(c: RawCodec, d: Disk, p: Path): Option<Result<Config.Fields>> {
    if p !in d then None
    else if IsDir(d, p) || OnDisk(c, d, p).doc.None? then Some(Err)
    else Some(Ok(OnDisk(c, d, p).doc.value))
  }

  /** resolveConfig: None for a machine that is not enrolled. */
  function ResolveOnDisk(w: Setup, d: Disk, serial: seq<byte>): Option<Result<Config.Fields>> {
    match ReadConfigFile(w.codec, d, PlainStore.MachineFile(w.Root(), serial))
    case None => None
    case Some(Err) => Some(Err)
    case Some(Ok(per)) =>
      match ReadConfigFile(w.codec, d, PlainStore.DefaultFile(w.Root()))
      case Some(Err) => Some(Err)
      case Some(Ok(def)) => Some(Resolve.DecryptUnattend(w.vault, Resolve.MergeConfig(def, per)))
      case None => Some(Resolve.DecryptUnattend(w.vault, Resolve.MergeConfig(map[], per)))
  }

  lemma ApiFilesAreConfigs(w: Setup, serial: seq<byte>)
    ensures IsConfig(w, PlainStore.DefaultFile(w.Root())) && IsConfig(w, PlainStore.MachineFile(w.Root(), serial))
  {
    var n := B(".json");
    assert n[4] == 'n' as int && PART_EXT[4] == 't' as int && SIDECAR_EXT[6] == '6' as int;
    JsonIsProper(w.Root() + B("/machines/") + serial + n);
    JsonIsProper(w.Root() + B("/default.json"));
    assert B("/default.json")[0] == SLASH && B("/machines/")[0] == SLASH;
    assert w.Root() + [SLASH] <= PlainStore.DefaultFile(w.Root());
    assert w.Root() + [SLASH] <= PlainStore.MachineFile(w.Root(), serial);
  }

  /** What the API answers for a machine with its own file, field by field: outside unattend the machine's value, else the
      default's; inside, the machine's field, else the default's, decrypted if it is a string. Without a default file
      there is nothing to fall back on. */
  lemma ServedFieldByField(w: Setup, d: Disk, serial: seq<byte>, per: Config.Fields, def: Config.Fields, k: string)
    requires IsFile(d, w.Root() + B("/machines/") + serial + B(".json"))
    requires w.codec.parse(d[w.Root() + B("/machines/") + serial + B(".json")].data).doc == Some(per)
    requires var file := w.Root() + B("/default.json");
             (file !in d && def == map[]) || (IsFile(d, file) && w.codec.parse(d[file].data).doc == Some(def))
    ensures var r := ResolveOnDisk(w, d, serial);
            && r.Some?
            && (r.value.Ok? ==>
                  && (k != "unattend" ==>
                        Config.Lookup(r.value.value, k) == if k in per then Some(per[k]) else Config.Lookup(def, k))
                  && ServedAs(w, Fallback(Resolve.UnattendOrEmpty(per), Resolve.UnattendOrEmpty(def), k),
                              Config.Lookup(Resolve.UnattendOrEmpty(r.value.value), k)))
  {
    var merged := Resolve.MergeConfig(def, per);
    if Resolve.DecryptUnattend(w.vault, merged).Ok? {
      Resolve.OverlayKeyByKey(def, per, k);
      Resolve.ServedField(w.vault, merged, k);
    }
  }

  /** No machine is served without its own file. */
  lemma NotEnrolled(w: Setup, d: Disk, serial: seq<byte>)
    ensures ResolveOnDisk(w, d, serial) == None <==> w.Root() + B("/machines/") + serial + B(".json") !in d
  {
  }

  function Fallback(per: Config.Fields, def: Config.Fields, k: string): Option<Config.Json> {
    if k in per then Some(per[k]) else Config.Lookup(def, k)
  }

  /** A stored string is served as what it decrypts to, anything else as it is. */
  predicate ServedAs(w: Setup, stored: Option<Config.Json>, served: Option<Config.Json>) {
    if stored.Some? && stored.value.Str? then
      && served.Some? && served.value.Str?
      && Envelope.DecryptSecret(w.vault.suite, w.vault.master, stored.value.s) == Ok(served.value.s)
    else served == stored
  }

  /** The files the API reads are the ones config saves reach by the names default.json and machines/<serial>.json, for
      every serial of letters, digits and dashes. */
  lemma ApiFilesAreSavedByName(w: Setup, serial: seq<byte>)
    requires serial != [] && forall i :: 0 <= i < |serial| ==> SerialByte(serial[i])
    ensures FileTarget(w.dataDir, B("config"), B("machines/") + serial + B(".json"))
         == Some(PlainStore.MachineFile(w.Root(), serial))
    ensures FileTarget(w.dataDir, B("config"), B("default.json")) == Some(PlainStore.DefaultFile(w.Root()))
  {
    DefaultIsSavedByName(w);
    MachineSegments(serial);
    NamedTarget(w, [B("machines"), serial + B(".json")], B("machines/") + serial + B(".json"));
    Regroup(w.Root(), B("/machines/"), serial, B(".json"));
  }

  lemma NamedTarget(w: Setup, segs: seq<Seg>, rel: seq<byte>)
    requires segs != [] && AllProper(segs) && rel == TrimSlash(Flat(segs))
    ensures FileTarget(w.dataDir, B("config"), rel) == Some(w.Root() + Flat(segs))
  {
    PlainFileTarget(w, segs);
  }

  lemma Regroup(a: seq<byte>, b: seq<byte>, c: seq<byte>, d: seq<byte>)
    ensures a + (b + c + d) == a + b + c + d
  {
  }

  lemma DefaultIsSavedByName(w: Setup)
    ensures FileTarget(w.dataDir, B("config"), B("default.json")) == Some(PlainStore.DefaultFile(w.Root()))
  {
    DefaultSegments();
    PlainFileTarget(w, [B("default.json")]);
  }

  lemma LastByte(segs: seq<Seg>)
    requires segs != [] && AllProper(segs)
    ensures Flat(segs) != [] && Flat(segs)[|Flat(segs)| - 1] != SLASH
  {
    var front, last := segs[..|segs| - 1], segs[|segs| - 1];
    assert segs == front + [last] && last in segs;
    FlatAppend(front, [last]);
    FlatOne(last);
    assert last[|last| - 1] in last;
  }

  /** A name made of proper segments is reached under that name. */
  lemma PlainFileTarget(w: Setup, segs: seq<Seg>)
    requires segs != [] && AllProper(segs)
    ensures FileTarget(w.dataDir, B("config"), TrimSlash(Flat(segs))) == Some(w.Root() + Flat(segs))
  {
    var rel := TrimSlash(Flat(segs));
    SplitRelative(segs);
    FlatSegments(segs);
    assert TrimSlash(rel) == rel;
    assert RelSegments(rel) == segs;
    LastByte(segs);
    EndsInSlash(rel);
    ResolvedPathIs(w.dataDir, B("config"), rel);
    LeadingSlash(rel);
    RootSegments(w.dataDir, B("config"));
    FlatAppend(Segments(w.dataDir) + [B("config")], segs);
  }

  lemma DefaultSegments()
    ensures AllProper([B("default.json")])
    ensures TrimSlash(Flat([B("default.json")])) == B("default.json") && Flat([B("default.json")]) == B("/default.json")
  {
    var n := B("default.json");
    assert n[0] == 100 && forall i :: 0 <= i < |n| ==> n[i] != 47;
    FlatOne(n);
  }

  lemma MachineSegments(serial: seq<byte>)
    requires serial != [] && forall i :: 0 <= i < |serial| ==> SerialByte(serial[i])
    ensures AllProper([B("machines"), serial + B(".json")])
    ensures Flat([B("machines"), serial + B(".json")]) == B("/machines/") + serial + B(".json")
    ensures TrimSlash(Flat([B("machines"), serial + B(".json")])) == B("machines/") + serial + B(".json")
  {
    var m, n, segs := B("machines"), serial + B(".json"), [B("machines"), serial + B(".json")];
    PlainNames();
    assert |n| >= 6;
    FlatOne(n);
    assert segs[1..] == [n] && Flat(segs) == [SLASH] + m + Flat([n]);
  }

  lemma PlainNames()
    ensures Proper(B("machines")) && B("machines") != [] && SLASH !in B(".json") && |B(".json")| == 5
    ensures B("/machines/") == [SLASH] + B("machines") + [SLASH] && B("machines/") == B("machines") + [SLASH]
  {
    assert B("machines")[0] == 109 && forall i :: 0 <= i < |B("machines")| ==> B("machines")[i] != 47;
    assert forall i :: 0 <= i < |B(".json")| ==> B(".json")[i] != 47;
  }

  predicate SerialByte(c: byte) { 65 <= c <= 90 || 97 <= c <= 122 || 48 <= c <= 57 || c == 45 }

  lemma JsonIsProper(p: Path)
    requires p != [] && p[|p| - 1] == 'n' as int
    ensures ProperName(p)
  {
    assert PART_EXT[4] == 't' as int && SIDECAR_EXT[6] == '6' as int;
  }

  lemma StoreIsServed(w: Setup, d: Disk, st: PlainStore.Store, def: Path, serial: seq<byte>)
    requires def == PlainStore.DefaultFile(w.Root())
    requires HoldsAt(w, d, st, def) && HoldsAt(w, d, st, PlainStore.MachineFile(w.Root(), serial))
    requires !IsDir(d, PlainStore.MachineFile(w.Root(), serial)) && !IsDir(d, def)
    ensures ResolveOnDisk(w, d, serial) == PlainStore.ResolveConfig(w.vault, st, w.Root(), serial)
  {
    var per := PlainStore.MachineFile(w.Root(), serial);
    assert ReadConfigFile(w.codec, d, per) == if per in st then Some(Ok(st[per])) else None;
    assert ReadConfigFile(w.codec, d, def) == if def in st then Some(Ok(st[def])) else None;
  }

  /** After any such run the API serves each machine the overlay of the plaintext machine's default and own files, and
      no machine that has none. */
  lemma ServesPlainFromDisk(w: Setup, d: Disk, rs: seq<Request>, serial: seq<byte>)
    requires Agrees(w.codec) && AllFit(w, d, rs) && Holds(w, d, map[]) && NoneSealed(Trace(w, d, rs))
    requires var now := After(w, d, rs);
             !IsDir(now, PlainStore.MachineFile(w.Root(), serial)) && !IsDir(now, PlainStore.DefaultFile(w.Root()))
    ensures var plain := PlainStore.PlainConfig(PlainStore.PlainRun(w.vault, Trace(w, d, rs)), w.Root(), serial);
            ResolveOnDisk(w, After(w, d, rs), serial) == if plain.None? then None else Some(Ok(plain.value))
  {
    var ops, now := Trace(w, d, rs), After(w, d, rs);
    var st := PlainStore.Run(w.vault, ops);
    DiskIsStore(w, d, rs);
    ApiFilesAreConfigs(w, serial);
    StoreIsServed(w, now, st, PlainStore.DefaultFile(w.Root()), serial);
    PlainStore.ServesPlainOverlay(w.vault, ops, w.Root(), serial);
  }
}
