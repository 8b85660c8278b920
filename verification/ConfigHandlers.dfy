/** The two config endpoints on the deploy volume: what a save leaves on disk and what a load returns. */
module ConfigHandlers {
  import opened Bytes
  import opened Volume
  import opened Handlers
  import opened Server
  import Config

  /** JSON text: a parser and a printer. */
  datatype RawCodec = Codec(parse: seq<byte> -> Config.Raw, marshal: Config.Fields -> seq<byte>)

  /** What a save prints from texts it parsed is read back as it was; and there is nothing in an empty file. Nothing is
      asked of configs that no text parses to, such as numbers or strings the parser would have changed. */
  ghost predicate Agrees(c: RawCodec) {
    && (forall v, ivs, body, prev :: RoundTrips(c, Config.EncryptConfig(v, ivs, c.parse(body), c.parse(prev))))
    && c.parse([]) == Config.Raw(false, None)
  }

  ghost predicate RoundTrips(c: RawCodec, out: Result<Config.Fields>) {
    out.Ok? ==> c.parse(c.marshal(out.value)) == Config.Raw(false, Some(out.value))
  }

  // ---- there are such codecs ----

  const PASS := "DOMAINPASS"

  /** A config that holds one password and nothing else. */
  function OnePass(s: seq<byte>): Config.Fields { map[Config.UNATTEND := Config.Obj(map[PASS := Config.Str(s)])] }

  const NO_PASS: Config.Fields := map[Config.UNATTEND := Config.Obj(map[])]

  /** The smallest useful format: a 1 and the password, or anything else for a config without one. */
  function ParsePass(b: seq<byte>): Config.Raw {
    if b == [] then Config.Raw(false, None)
    else Config.Raw(false, Some(if b[0] == 1 then OnePass(b[1..]) else NO_PASS))
  }

  function PrintPass(f: Config.Fields): seq<byte> {
    if Config.Unattend(f).Some? && PASS in Config.Unattend(f).value then [1] + Config.AsText(Config.Unattend(f).value[PASS])
    else [0]
  }

  function PassCodec(): RawCodec { Codec(b => ParsePass(b), f => PrintPass(f)) }

  lemma PrintedPassParses(s: seq<byte>)
    ensures ParsePass(PrintPass(OnePass(s))) == Config.Raw(false, Some(OnePass(s)))
    ensures ParsePass(PrintPass(NO_PASS)) == Config.Raw(false, Some(NO_PASS))
  {
    assert Config.Unattend(OnePass(s)) == Some(map[PASS := Config.Str(s)]);
    assert ([1] + s)[1..] == s;
  }

  /** A save of a config of that format is again of that format. */
  lemma SavedPass(v: Config.Vault, ivs: Config.Ivs, body: seq<byte>, prev: Config.Raw)
    ensures var out := Config.EncryptConfig(v, ivs, ParsePass(body), prev);
            out.Ok? ==> out.value == NO_PASS || exists s :: out.value == OnePass(s)
  {
    var out := Config.EncryptConfig(v, ivs, ParsePass(body), prev);
    if out.Ok? {
      var un := Config.Unattend(ParsePass(body).doc.value).value;
      var saved := Config.SaveUnattend(v, ivs, un, Config.PrevUnattend(prev)).value;
      assert out.value == map[Config.UNATTEND := Config.Obj(saved)];
      PassIsSecret();
      if PASS in saved {
        assert saved == map[PASS := saved[PASS]];
        assert out.value == OnePass(saved[PASS].s);
      } else {
        assert saved == map[];
      }
    }
  }

  lemma PassIsSecret()
    ensures Config.IsSecretField(PASS)
  {
    assert |PASS| == 10 && PASS[6] == 'P' && PASS[7] == 'A' && PASS[8] == 'S' && PASS[9] == 'S';
  }

  /** The hypothesis can be met, and by a codec whose texts can hold any password in the clear. */
  lemma SomeCodecAgrees()
    ensures Agrees(PassCodec())
    ensures forall s :: PassCodec().parse([1] + s) == Config.Raw(false, Some(OnePass(s)))
  {
    var c := PassCodec();
    forall v, ivs, body, prev
      ensures RoundTrips(c, Config.EncryptConfig(v, ivs, c.parse(body), c.parse(prev)))
    {
      var out := Config.EncryptConfig(v, ivs, c.parse(body), c.parse(prev));
      SavedPass(v, ivs, body, c.parse(prev));
      if out.Ok? {
        PrintedPassParses([]);
        if out.value != NO_PASS {
          var s :| out.value == OnePass(s);
          PrintedPassParses(s);
        }
      }
    }
    forall s: seq<byte>
      ensures c.parse([1] + s) == Config.Raw(false, Some(OnePass(s)))
    {
      assert ([1] + s)[1..] == s;
    }
  }

  /** The config file at p, as parsed. */
  function OnDisk(c: RawCodec, d: Disk, p: Path): Config.Raw {
    c.parse(Content(d, p))
  }

  const BODY_CAP: nat := 1024 * 1024

  /** What a config GET answers: the masked config, or a status. */
  datatype GetReply = Masked(cfg: Config.Fields) | Refused(status: nat)

  function ConfigGet(c: RawCodec, d: Disk, target: Option<Path>, readOk: bool): GetReply {
    if target.None? then Refused(400)
    else if target.value !in d then Refused(404)
    else if !readOk || IsDir(d, target.value) then Refused(500)
    else
      match Config.MaskConfig(OnDisk(c, d, target.value))
      case Ok(cfg) => Masked(cfg)
      case Err => Refused(422)
  }

  /** What a config GET answers: 400 for a bad path, 404 for no file, 500 for one that cannot be read, 422 for one that
      does not parse, else the file with its set secrets masked. */
  lemma GetAnswers(c: RawCodec, d: Disk, target: Option<Path>, readOk: bool)
    ensures var r := ConfigGet(c, d, target, readOk);
            && (target.None? ==> r == Refused(400))
            && (target.Some? && target.value !in d ==> r == Refused(404))
            && (target.Some? && target.value in d && (!readOk || d[target.value].Dir?) ==> r == Refused(500))
            && (target.Some? && IsFile(d, target.value) && readOk && c.parse(d[target.value].data).doc.None? ==>
                  r == Refused(422))
            && (target.Some? && IsFile(d, target.value) && readOk && c.parse(d[target.value].data).doc.Some? ==>
                  r == Masked(Config.MaskConfig(c.parse(d[target.value].data)).value))
  {
  }

  /** Two files that differ only in the values of their secrets are served alike. */
  lemma GetShowsOnlySetness(c: RawCodec, d1: Disk, d2: Disk, p: Path)
    requires IsFile(d1, p) && IsFile(d2, p)
    requires OnDisk(c, d1, p).doc.Some? && OnDisk(c, d2, p).doc.Some?
    requires Config.SecretsSet(OnDisk(c, d1, p).doc.value) && Config.SecretsSet(OnDisk(c, d2, p).doc.value)
    ensures ConfigGet(c, d1, Some(p), true) == ConfigGet(c, d2, Some(p), true) <==>
            Config.EqualButSecrets(OnDisk(c, d1, p).doc.value, OnDisk(c, d2, p).doc.value)
  {
    Config.MaskSeesOnlySetness(OnDisk(c, d1, p).doc.value, OnDisk(c, d2, p).doc.value);
  }

  // ---- PUT ----

  /** What a save would store over the file at the target; one that cannot be read counts as none. */
  function Prepared(c: RawCodec, vault: Config.Vault, ivs: Config.Ivs, d: Disk, target: Path, body: seq<byte>,
                    prevRead: bool): Result<Config.Fields>
  {
    Config.EncryptConfig(vault, ivs, c.parse(body[..Min(|body|, BODY_CAP)]),
                         if prevRead then OnDisk(c, d, target) else Config.Raw(false, None))
  }

  /** One save: where to, what, what befalls it. */
  datatype SaveReq = SaveReq(target: Option<Path>, body: seq<byte>, ivs: Config.Ivs, bodyOk: bool, prevRead: bool)

  predicate SaveRefused(c: RawCodec, vault: Config.Vault, d: Disk, q: SaveReq) {
    q.target.None? || !q.bodyOk || Prepared(c, vault, q.ivs, d, q.target.value, q.body, q.prevRead).Err?
  }

  /** A body of up to 1 MiB counts whole. */
  lemma WholeBodyCounts(c: RawCodec, vault: Config.Vault, ivs: Config.Ivs, d: Disk, target: Path, body: seq<byte>,
                        prevRead: bool)
    requires |body| <= 1048576
    ensures Prepared(c, vault, ivs, d, target, body, prevRead)
         == Config.EncryptConfig(vault, ivs, c.parse(body),
                                 if prevRead then c.parse(Content(d, target)) else Config.Raw(false, None))
  {
    assert body[..Min(|body|, BODY_CAP)] == body;
  }

  /** The bytes a save writes. */
  function Text(c: RawCodec, vault: Config.Vault, d: Disk, q: SaveReq): seq<byte>
    requires !SaveRefused(c, vault, d, q)
  {
    c.marshal(Prepared(c, vault, q.ivs, d, q.target.value, q.body, q.prevRead).value)
  }

  /** A config save is a PUT of the bytes it prepared, or nothing. */
  function ConfigPut(sha: Hash, c: RawCodec, vault: Config.Vault, d: Disk, q: SaveReq, o: PutOutcome): Disk {
    if SaveRefused(c, vault, d, q) then d else Put(sha, d, q.target, Text(c, vault, d, q), o)
  }

  function ConfigPutReply(c: RawCodec, vault: Config.Vault, d: Disk, q: SaveReq, o: PutOutcome): Reply {
    if SaveRefused(c, vault, d, q) then Plain(400) else PutReply(d, q.target, o)
  }

  /** A save that succeeds has written all of its bytes. */
  predicate WroteAll(c: RawCodec, vault: Config.Vault, d: Disk, q: SaveReq, o: PutOutcome) {
    !SaveRefused(c, vault, d, q) && PutSucceeds(d, q.target, o) ==> o.take == |Text(c, vault, d, q)|
  }

  /** What befalls one save: whether the body and the file to replace could be read, and what the disk does. */
  datatype SaveFaults =
    SaveFaults(bodyOk: bool, prevRead: bool, ticks: nat -> DiskTick, finalSync: bool, closeOk: bool, put: PutFaults)

  /** No write, sync or close fails. */
  ghost predicate StorageWorks(x: SaveFaults) {
    (forall i :: x.ticks(i) == DiskTick(None, true)) && x.finalSync && x.closeOk
  }

  /** A config save: the disk is what ConfigPut makes of it, and passes only through the states of that PUT. */
  method HandleConfigPut(v: Vol, sha: Hash, c: RawCodec, vault: Config.Vault, ivs: Config.Ivs,
                         dataDir: seq<byte>, rel: seq<byte>, body: seq<byte>, x: SaveFaults)
    returns (reply: Reply, ghost o: PutOutcome)
    requires v.Valid()
    modifies v
    ensures v.Valid()
    ensures var q := SaveReq(FileTarget(dataDir, B("config"), rel), body, ivs, x.bodyOk, x.prevRead);
            && v.files == ConfigPut(sha, c, vault, old(v.files), q, o)
            && reply == ConfigPutReply(c, vault, old(v.files), q, o) && WroteAll(c, vault, old(v.files), q, o)
            && PutWasGiven(o, x.put, x.closeOk)
            && (!SaveRefused(c, vault, old(v.files), q) && Unhindered(old(v.files), q.target.value, x.put)
                && StorageWorks(x) ==>
                  reply.status == 201)
            && old(v.history) <= v.history
            && if SaveRefused(c, vault, old(v.files), q) then v.history == old(v.history)
               else forall i :: |old(v.history)| <= i < |v.history| ==>
                      PutPasses(sha, old(v.files), q.target, Text(c, vault, old(v.files), q), o, v.history[i])
  {
    var target := FileTarget(dataDir, B("config"), rel);
    ghost var q := SaveReq(target, body, ivs, x.bodyOk, x.prevRead);
    o := PutOutcome(x.put.mkdirOk, x.put.createOk, 0, false, x.closeOk, x.put.renameOk, x.put.cleanupOk, x.put.sidecar);
    if target.None? || !x.bodyOk {
      return Plain(400), o;
    }
    var prev := if x.prevRead then OnDisk(c, v.files, target.value) else Config.Raw(false, None);
    var saved := Config.EncryptConfigJson(vault, ivs, c.parse(body[..Min(|body|, BODY_CAP)]), prev);
    if saved.Err? {
      return Plain(400), o;
    }
    var out := c.marshal(saved.value);
    assert out == Text(c, vault, v.files, q);
    reply, o := SaveBytes(v, sha, target.value, out, x);
  }

  /** Writes prepared bytes and records their sidecar. */
  method SaveBytes(v: Vol, sha: Hash, dest: Path, out: seq<byte>, x: SaveFaults) returns (reply: Reply, ghost o: PutOutcome)
    requires v.Valid()
    modifies v
    ensures v.Valid()
    ensures v.files == Put(sha, old(v.files), Some(dest), out, o) && reply == PutReply(old(v.files), Some(dest), o)
    ensures PutSucceeds(old(v.files), Some(dest), o) ==> o.take == |out|
    ensures PutWasGiven(o, x.put, x.closeOk)
    ensures Unhindered(old(v.files), dest, x.put) && StorageWorks(x) ==> reply.status == 201
    ensures old(v.history) <= v.history
    ensures forall i :: |old(v.history)| <= i < |v.history| ==>
              PutPasses(sha, old(v.files), Some(dest), out, o, v.history[i])
  {
    ghost var d := v.files;
    var s := Stream(out, FullBuffers(|out|), x.ticks, x.finalSync, x.closeOk);
    var r, oo := StoreStream(v, sha, dest, s, x.put);
    reply, o := r, oo;
    WholePut(sha, d, dest, out, o);
  }

  /** A save answered 201 leaves the prepared config under the target; any other answer leaves the target, and every
      other file but the staging one, as it was. */
  lemma SavedIsOnDisk(sha: Hash, c: RawCodec, vault: Config.Vault, d: Disk, q: SaveReq, o: PutOutcome)
    requires Agrees(c) && WroteAll(c, vault, d, q, o)
    ensures var (d', r) := (ConfigPut(sha, c, vault, d, q, o), ConfigPutReply(c, vault, d, q, o));
            && (r.status == 201 <==> !SaveRefused(c, vault, d, q) && PutSucceeds(d, q.target, o))
            && (r.status == 201 ==>
                  && IsFile(d', q.target.value)
                  && OnDisk(c, d', q.target.value)
                     == Config.Raw(false, Some(Prepared(c, vault, q.ivs, d, q.target.value, q.body, q.prevRead).value)))
            && (r.status == 400 ==> d' == d)
            && (r.status != 201 && q.target.Some? ==> d' - {Part(q.target.value)} == d - {Part(q.target.value)})
  {
    if !SaveRefused(c, vault, d, q) && PutSucceeds(d, q.target, o) {
      NamesApart(q.target.value, q.target.value);
      var out := Text(c, vault, d, q);
      assert out[..|out|] == out;
    }
  }

  /** An in-memory body arrives buffer by buffer and never breaks. */
  function FullBuffers(n: nat): (a: seq<Arrival>)
    ensures Delivers(a, n) && Arrives(a, n)
  {
    if n == 0 then []
    else
      var a: seq<Arrival> := [Arrival(BUF, More)] + FullBuffers(n - Min(BUF, n));
      assert a[1..] == FullBuffers(n - Min(BUF, n));
      a
  }
}
