/** The encrypted config store behaves, over every run, like a store that never encrypts. */
module PlainStore {
  import opened Bytes
  import Cbc
  import opened Envelope
  import opened Config
  import opened Resolve

  // ---- the plaintext machine: KEEP keeps, blank or non-string removes, anything else sets ----

  function PlainSecret(incoming: Json, prev: Option<Json>): seq<byte> {
    if AsText(incoming) == KEEP then (if prev.Some? then AsText(prev.value) else [])
    else AsText(incoming)
  }

  function PlainUnattend(un: Fields, prevUn: Fields): Fields {
    map k | k in un && (IsSecretField(k) ==> PlainSecret(un[k], Lookup(prevUn, k)) != []) ::
      if IsSecretField(k) then Str(PlainSecret(un[k], Lookup(prevUn, k))) else un[k]
  }

  function PlainSave(cfg: Fields, prev: Fields): Fields {
    if Unattend(cfg).None? then cfg
    else cfg[UNATTEND := Obj(PlainUnattend(Unattend(cfg).value, UnattendOrEmpty(prev)))]
  }

  // ---- one save ----

  /** No string of the submitted unattend block already looks like an envelope. */
  predicate NoEnvelope(cfg: Fields) {
    forall k :: k in UnattendOrEmpty(cfg) ==> !IsEncrypted(AsText(UnattendOrEmpty(cfg)[k]))
  }

  ghost predicate Refines(v: Vault, enc: Fields, plain: Fields) {
    DecryptUnattend(v, enc) == Ok(plain) && SecretsSet(enc) && SecretsSet(plain)
  }

  lemma SecretRefines(v: Vault, iv: Option<Cbc.Block>, incoming: seq<byte>, prev: Option<Json>, prevPlain: Option<Json>)
    requires ResolveSecret(v, iv, incoming, prev).Ok?
    requires prev.Some? == prevPlain.Some?
    requires prev.Some? ==> Readable(v, prev.value) && prevPlain.value == DecryptValue(v, prev.value)
    requires prev.Some? ==> AsText(prev.value) != [] && AsText(prevPlain.value) != []
    ensures var s := ResolveSecret(v, iv, incoming, prev).value;
            var p := PlainSecret(Str(incoming), prevPlain);
            && (s == [] <==> p == [])
            && (DecryptSecret(v.suite, v.master, s) == Ok(p) <==> !IsEncrypted(incoming))
            && (IsEncrypted(incoming) ==> s != [])
  {
    assert ENC_PREFIX[0] == 'e' as int && KEEP[0] == '_' as int;
    if incoming != KEEP && incoming != [] {
      DecryptInvertsEncryptSecret(v.suite, v.master, iv, incoming);
    }
  }

  /** Field by field: what is stored decrypts to what the plaintext machine holds. */
  lemma FieldRefines(v: Vault, ivs: Ivs, un: Fields, prevUn: Fields, prevPlain: Fields, k: string)
    requires k in un && (IsSecretField(k) ==> Stored(v, ivs, un, prevUn, k).Ok?)
    requires prevUn.Keys == prevPlain.Keys
    requires forall j :: j in prevUn ==> Readable(v, prevUn[j]) && prevPlain[j] == DecryptValue(v, prevUn[j])
    requires forall j :: j in prevUn && IsSecretField(j) ==> AsText(prevUn[j]) != [] && AsText(prevPlain[j]) != []
    ensures Survives(v, ivs, un, prevUn, k) <==> k in PlainUnattend(un, prevPlain)
    ensures IsEncrypted(AsText(un[k])) ==> Survives(v, ivs, un, prevUn, k)
    ensures Survives(v, ivs, un, prevUn, k) ==>
              var s := StoredValue(v, ivs, un, prevUn, k);
              (Readable(v, s) && DecryptValue(v, s) == PlainUnattend(un, prevPlain)[k] <==> !IsEncrypted(AsText(un[k])))
  {
    if IsSecretField(k) {
      SecretRefines(v, ivs(k), AsText(un[k]), Lookup(prevUn, k), Lookup(prevPlain, k));
    } else if un[k].Str? && IsEncrypted(un[k].s) && Readable(v, un[k]) {
      PlainIsShorter(v.suite, v.master, un[k].s);
    }
  }

  lemma PrevAgrees(v: Vault, enc: Fields, plain: Fields)
    requires Refines(v, enc, plain)
    ensures var (eu, pu) := (PrevUnattend(Raw(false, Some(enc))), UnattendOrEmpty(plain));
            && eu == UnattendOrEmpty(enc) && eu.Keys == pu.Keys
            && (forall j :: j in eu ==> Readable(v, eu[j]) && pu[j] == DecryptValue(v, eu[j]))
            && (forall j :: j in eu && IsSecretField(j) ==> AsText(eu[j]) != [] && AsText(pu[j]) != [])
  {
  }

  lemma FieldwiseEqual(v: Vault, cfg: Fields, stored: Fields, want: Fields)
    requires stored.Keys == want.Keys
    ensures DecryptUnattend(v, cfg[UNATTEND := Obj(stored)]) == Ok(cfg[UNATTEND := Obj(want)])
       <==> forall k :: k in stored ==> Readable(v, stored[k]) && DecryptValue(v, stored[k]) == want[k]
  {
    var c, w := cfg[UNATTEND := Obj(stored)], cfg[UNATTEND := Obj(want)];
    assert Unattend(c) == Some(stored);
    if DecryptUnattend(v, c).Ok? {
      var d := DecryptFields(v, stored);
      assert DecryptUnattend(v, c).value == cfg[UNATTEND := Obj(d)];
      if cfg[UNATTEND := Obj(d)] == w {
        assert w[UNATTEND] == Obj(d);
      }
      if forall k :: k in stored ==> DecryptValue(v, stored[k]) == want[k] {
        assert d == want;
      }
    }
  }

  /** One save refines the plaintext machine exactly when nothing submitted already looks like an envelope. */
  lemma SaveRefinesExactly(v: Vault, ivs: Ivs, cfg: Fields, bom: bool, prev: Fields, prevPlain: Fields)
    requires Refines(v, prev, prevPlain)
    requires EncryptConfig(v, ivs, Raw(bom, Some(cfg)), Raw(false, Some(prev))).Ok?
    ensures Refines(v, EncryptConfig(v, ivs, Raw(bom, Some(cfg)), Raw(false, Some(prev))).value, PlainSave(cfg, prevPlain))
       <==> NoEnvelope(cfg)
  {
    var out := EncryptConfig(v, ivs, Raw(bom, Some(cfg)), Raw(false, Some(prev))).value;
    var plain := PlainSave(cfg, prevPlain);
    if Unattend(cfg).Some? {
      var un := Unattend(cfg).value;
      var prevUn, prevPlainUn := PrevUnattend(Raw(false, Some(prev))), UnattendOrEmpty(prevPlain);
      PrevAgrees(v, prev, prevPlain);
      var stored := SaveUnattend(v, ivs, un, prevUn).value;
      var want := PlainUnattend(un, prevPlainUn);
      forall k | k in un
        ensures k in stored <==> k in want
        ensures IsEncrypted(AsText(un[k])) ==> k in stored
        ensures k in stored ==>
                  (Readable(v, stored[k]) && DecryptValue(v, stored[k]) == want[k] <==> !IsEncrypted(AsText(un[k])))
      {
        FieldRefines(v, ivs, un, prevUn, prevPlainUn, k);
      }
      assert stored.Keys == want.Keys;
      assert Unattend(out) == Some(stored) && Unattend(plain) == Some(want);
      assert SecretsSet(plain);
      assert UnattendOrEmpty(cfg) == un;
      if !NoEnvelope(cfg) {
        var k :| k in un && IsEncrypted(AsText(un[k]));
        assert k in stored && !(Readable(v, stored[k]) && DecryptValue(v, stored[k]) == want[k]);
      }
      assert out == cfg[UNATTEND := Obj(stored)] && plain == cfg[UNATTEND := Obj(want)];
      FieldwiseEqual(v, cfg, stored, want);
      SaveLeavesSecretsSet(v, ivs, Raw(bom, Some(cfg)), Raw(false, Some(prev)));
    } else {
      assert out == plain == cfg;
    }
  }

  // ---- whole runs over many files ----

  /** One admin operation on the config tree. A save replaces what prevRead says it could read (an unreadable file
      counts as none), and written says whether the new file reached the disk. A removal takes one file or all the
      files of a folder. */
  datatype Op =
    | Save(path: seq<byte>, body: Raw, ivs: Ivs, prevRead: bool, written: bool)
    | Remove(paths: set<seq<byte>>)

  type Store = map<seq<byte>, Fields>

  function PrevRaw(st: Store, path: seq<byte>, read: bool): Raw {
    Raw(false, if read && path in st then Some(st[path]) else None)
  }

  /** Whether a save is answered 201: it parses, the IVs it needs could be drawn and the file was written. */
  predicate Accepted(v: Vault, op: Op)
    requires op.Save?
  {
    && op.written
    && op.body.doc.Some?
    && forall k :: k in UnattendOrEmpty(op.body.doc.value) && IsSecretField(k) ==>
         var incoming := AsText(UnattendOrEmpty(op.body.doc.value)[k]);
         incoming == KEEP || EncryptSecret(v.suite, v.master, op.ivs(k), incoming).Ok?
  }

  function Step(v: Vault, st: Store, op: Op): Store {
    match op
    case Remove(paths) => st - paths
    case Save(path, body, ivs, read, written) =>
      match EncryptConfig(v, ivs, body, PrevRaw(st, path, read))
      case Ok(out) => if written then st[path := out] else st
      case Err => st
  }

  function PlainStep(v: Vault, st: Store, op: Op): Store {
    match op
    case Remove(paths) => st - paths
    case Save(path, body, _, read, _) =>
      if Accepted(v, op) then st[path := PlainSave(body.doc.value, if read && path in st then st[path] else map[])] else st
  }

  function Run(v: Vault, ops: seq<Op>): Store {
    if ops == [] then map[] else Step(v, Run(v, ops[..|ops| - 1]), ops[|ops| - 1])
  }

  function PlainRun(v: Vault, ops: seq<Op>): Store {
    if ops == [] then map[] else PlainStep(v, PlainRun(v, ops[..|ops| - 1]), ops[|ops| - 1])
  }

  lemma AcceptedExactly(v: Vault, st: Store, op: Op)
    requires op.Save?
    ensures Accepted(v, op) <==> op.written && EncryptConfig(v, op.ivs, op.body, PrevRaw(st, op.path, op.prevRead)).Ok?
  {
  }

  ghost predicate StoreRefines(v: Vault, enc: Store, plain: Store) {
    enc.Keys == plain.Keys && forall p :: p in enc ==> Refines(v, enc[p], plain[p])
  }

  lemma StepRefines(v: Vault, enc: Store, plain: Store, op: Op)
    requires StoreRefines(v, enc, plain)
    requires op.Save? && op.body.doc.Some? ==> NoEnvelope(op.body.doc.value)
    ensures StoreRefines(v, Step(v, enc, op), PlainStep(v, plain, op))
  {
    if op.Save? {
      AcceptedExactly(v, enc, op);
      if Accepted(v, op) {
        var cfg := op.body.doc.value;
        var prev := if op.prevRead && op.path in enc then enc[op.path] else map[];
        var prevPlain := if op.prevRead && op.path in enc then plain[op.path] else map[];
        assert PrevUnattend(PrevRaw(enc, op.path, op.prevRead)) == PrevUnattend(Raw(false, Some(prev)));
        assert EncryptConfig(v, op.ivs, op.body, PrevRaw(enc, op.path, op.prevRead))
               == EncryptConfig(v, op.ivs, op.body, Raw(false, Some(prev)));
        SaveRefinesExactly(v, op.ivs, cfg, op.body.bom, prev, prevPlain);
      }
    }
  }

  /** Over every run of saves and removals of any files, each stored file decrypts to what the plaintext
      machine holds. */
  lemma {:induction false} StoreRefinesPlain(v: Vault, ops: seq<Op>)
    requires forall i :: 0 <= i < |ops| && ops[i].Save? && ops[i].body.doc.Some? ==> NoEnvelope(ops[i].body.doc.value)
    ensures StoreRefines(v, Run(v, ops), PlainRun(v, ops))
  {
    if ops != [] {
      StoreRefinesPlain(v, ops[..|ops| - 1]);
      StepRefines(v, Run(v, ops[..|ops| - 1]), PlainRun(v, ops[..|ops| - 1]), ops[|ops| - 1]);
    }
  }

  // ---- at rest ----

  ghost predicate SecretsSealed(cfg: Fields) {
    forall k :: k in UnattendOrEmpty(cfg) && IsSecretField(k) ==> IsEncrypted(AsText(UnattendOrEmpty(cfg)[k]))
  }

  /** With a key configured, no run of saves, whatever is submitted, leaves a secret field unencrypted on disk. */
  lemma {:induction false} SecretsSealedAtRest(v: Vault, ops: seq<Op>)
    requires v.master.Some?
    ensures forall p :: p in Run(v, ops) ==> SecretsSealed(Run(v, ops)[p])
  {
    if ops != [] {
      SecretsSealedAtRest(v, ops[..|ops| - 1]);
      var st, op := Run(v, ops[..|ops| - 1]), ops[|ops| - 1];
      if op.Save? && op.path in Step(v, st, op) {
        var prev := PrevRaw(st, op.path, op.prevRead);
        if op.written && EncryptConfig(v, op.ivs, op.body, prev).Ok? && Unattend(op.body.doc.value).Some? {
          SealedSave(v, op.ivs, Unattend(op.body.doc.value).value, PrevUnattend(prev));
        }
      }
    }
  }

  lemma SealedSave(v: Vault, ivs: Ivs, un: Fields, prevUn: Fields)
    requires v.master.Some? && SaveUnattend(v, ivs, un, prevUn).Ok?
    requires forall k :: k in prevUn && IsSecretField(k) ==> IsEncrypted(AsText(prevUn[k]))
    ensures var out := SaveUnattend(v, ivs, un, prevUn).value;
            forall k :: k in out && IsSecretField(k) ==> IsEncrypted(AsText(out[k]))
  {
  }

  /** Every secret submitted is blank, KEEP, or sealed already. */
  predicate SubmitsSealed(cfg: Fields) {
    forall k :: k in UnattendOrEmpty(cfg) && IsSecretField(k) ==>
      var s := AsText(UnattendOrEmpty(cfg)[k]); s == [] || s == KEEP || IsEncrypted(s)
  }

  lemma FieldSealsExactly(v: Vault, iv: Option<Cbc.Block>, incoming: seq<byte>, prev: Option<Json>)
    requires ResolveSecret(v, iv, incoming, prev).Ok?
    requires prev.Some? ==> IsEncrypted(AsText(prev.value))
    ensures var s := ResolveSecret(v, iv, incoming, prev).value;
            s == [] || IsEncrypted(s) <==> v.master.Some? || incoming == [] || incoming == KEEP || IsEncrypted(incoming)
  {
  }

  /** Over a file whose secrets are sealed, a save leaves them sealed exactly when there is a key or nothing was
      submitted in the clear. */
  lemma SaveSealsExactly(v: Vault, ivs: Ivs, body: Raw, prev: Raw)
    requires EncryptConfig(v, ivs, body, prev).Ok?
    requires prev.doc.Some? ==> SecretsSealed(prev.doc.value)
    ensures SecretsSealed(EncryptConfig(v, ivs, body, prev).value) <==> v.master.Some? || SubmitsSealed(body.doc.value)
  {
    var cfg := body.doc.value;
    if Unattend(cfg).Some? {
      var un, prevUn := Unattend(cfg).value, PrevUnattend(prev);
      var out := SaveUnattend(v, ivs, un, prevUn).value;
      assert UnattendOrEmpty(EncryptConfig(v, ivs, body, prev).value) == out;
      forall k | k in un && IsSecretField(k)
        ensures (k in out ==> IsEncrypted(AsText(out[k])))
           <==> v.master.Some? || AsText(un[k]) == [] || AsText(un[k]) == KEEP || IsEncrypted(AsText(un[k]))
      {
        FieldSealsExactly(v, ivs(k), AsText(un[k]), Config.Lookup(prevUn, k));
      }
    }
  }

  // ---- what the API serves from such a store ----

  function OrEmpty(st: Store, path: seq<byte>): Fields {
    if path in st then st[path] else map[]
  }

  function DefaultFile(root: seq<byte>): seq<byte> { root + B("/default.json") }

  function MachineFile(root: seq<byte>, serial: seq<byte>): seq<byte> { root + B("/machines/") + serial + B(".json") }

  /** None: the machine is not enrolled. */
  function ResolveConfig(v: Vault, st: Store, root: seq<byte>, serial: seq<byte>): Option<Result<Fields>> {
    if MachineFile(root, serial) !in st then None
    else Some(DecryptUnattend(v, MergeConfig(OrEmpty(st, DefaultFile(root)), st[MachineFile(root, serial)])))
  }

  /** The same from files that were never encrypted. */
  function PlainConfig(st: Store, root: seq<byte>, serial: seq<byte>): Option<Fields> {
    if MachineFile(root, serial) !in st then None
    else Some(MergeConfig(OrEmpty(st, DefaultFile(root)), st[MachineFile(root, serial)]))
  }

  /** A store that refines a plaintext one serves the overlay of the two plaintext files, and has enrolled the same
      machines. */
  lemma ServesOverlay(v: Vault, enc: Store, plain: Store, root: seq<byte>, serial: seq<byte>)
    requires StoreRefines(v, enc, plain)
    ensures ResolveConfig(v, enc, root, serial)
         == if PlainConfig(plain, root, serial).None? then None else Some(Ok(PlainConfig(plain, root, serial).value))
  {
    var path := MachineFile(root, serial);
    if path in enc {
      DecryptCommutesWithMerge(v, OrEmpty(enc, DefaultFile(root)), enc[path]);
    }
  }

  /** A machine is served the overlay of the plaintext machine's two files, and is enrolled
      when that machine has its file. */
  lemma ServesPlainOverlay(v: Vault, ops: seq<Op>, root: seq<byte>, serial: seq<byte>)
    requires forall i :: 0 <= i < |ops| && ops[i].Save? && ops[i].body.doc.Some? ==> NoEnvelope(ops[i].body.doc.value)
    ensures var plain := PlainConfig(PlainRun(v, ops), root, serial);
            ResolveConfig(v, Run(v, ops), root, serial) == if plain.None? then None else Some(Ok(plain.value))
  {
    StoreRefinesPlain(v, ops);
    ServesOverlay(v, Run(v, ops), PlainRun(v, ops), root, serial);
  }
}
