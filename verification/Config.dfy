/** The config files behind /api/config: masking on read, encrypting on write, and the plaintext
    machine the encrypted store is meant to behave like. */
module Config {
  import opened Bytes
  import opened Cbc
  import opened Envelope

  /** An IEEE 754 binary64 number, by its bits. */
  type Float64 = n: nat | n < 0x1_0000_0000_0000_0000

  /** A parsed JSON value. */
  datatype Json =
    | Null
    | Bool(b: bool)
    | Num(bits: Float64)
    | Str(s: seq<byte>)
    | Arr(items: seq<Json>)
    | Obj(fields: map<string, Json>)

  type Fields = map<string, Json>

  const KEEP: seq<byte> := B("__KEEP__")
  const UNATTEND := "unattend"

  /** A file as read from disk: does it start with a byte-order mark, and what does the rest parse to?
      A missing or empty file parses to nothing. */
  datatype Raw = Raw(bom: bool, doc: Option<Fields>)

  /** The process-wide key; None when CONFIG_KEY is unset or malformed. */
  datatype Vault = Vault(suite: Suite, master: Option<seq<byte>>)

  /** The IV drawn for each field of one save; None where the random source fails. */
  type Ivs = string -> Option<Block>

  /** Upper-casing, as far as it can produce a letter of "PASS": U+017F is the long s. */
  function Upper(c: char): char {
    if 'a' <= c <= 'z' then (c as int - 32) as char
    else if c == '\U{017F}' then 'S'
    else c
  }

  predicate IsSecretField(name: string) {
    var n := |name|;
    n >= 4 && Upper(name[n - 4]) == 'P' && Upper(name[n - 3]) == 'A'
    && Upper(name[n - 2]) == 'S' && Upper(name[n - 1]) == 'S'
  }

  function Lookup(m: Fields, k: string): Option<Json> {
    if k in m then Some(m[k]) else None
  }

  /** A failed type assertion to string gives the empty string. */
  function AsText(j: Json): seq<byte> {
    if j.Str? then j.s else []
  }

  function Unattend(cfg: Fields): Option<Fields> {
    if UNATTEND in cfg && cfg[UNATTEND].Obj? then Some(cfg[UNATTEND].fields) else None
  }

  // ---- write path ----

  function ResolveSecret(v: Vault, iv: Option<Block>, incoming: seq<byte>, prev: Option<Json>): Result<seq<byte>> {
    if incoming == KEEP then Ok(if prev.Some? then AsText(prev.value) else [])
    else if incoming == [] then Ok([])
    else EncryptSecret(v.suite, v.master, iv, incoming)
  }

  /** Unlike the read path, this does not strip a byte-order mark. */
  function PrevUnattend(prev: Raw): Fields {
    if prev.bom || prev.doc.None? || Unattend(prev.doc.value).None? then map[]
    else Unattend(prev.doc.value).value
  }

  function Stored(v: Vault, ivs: Ivs, un: Fields, prevUn: Fields, k: string): Result<seq<byte>>
    requires k in un
  {
    ResolveSecret(v, ivs(k), AsText(un[k]), Lookup(prevUn, k))
  }

  predicate Survives(v: Vault, ivs: Ivs, un: Fields, prevUn: Fields, k: string)
    requires k in un
  {
    IsSecretField(k) ==> Stored(v, ivs, un, prevUn, k).Ok? && Stored(v, ivs, un, prevUn, k).value != []
  }

  function StoredValue(v: Vault, ivs: Ivs, un: Fields, prevUn: Fields, k: string): Json
    requires k in un && Survives(v, ivs, un, prevUn, k)
  {
    if IsSecretField(k) then Str(Stored(v, ivs, un, prevUn, k).value) else un[k]
  }

  function SaveUnattend(v: Vault, ivs: Ivs, un: Fields, prevUn: Fields): Result<Fields> {
    if exists k | k in un :: IsSecretField(k) && Stored(v, ivs, un, prevUn, k).Err? then Err
    else Ok(map k | k in un && Survives(v, ivs, un, prevUn, k) :: StoredValue(v, ivs, un, prevUn, k))
  }

  /** What a config PUT stores, given the file now on disk. */
  function EncryptConfig(v: Vault, ivs: Ivs, body: Raw, prev: Raw): Result<Fields> {
    if body.doc.None? then Err
    else
      var cfg := body.doc.value;
      if Unattend(cfg).None? then Ok(cfg)
      else
        match SaveUnattend(v, ivs, Unattend(cfg).value, PrevUnattend(prev))
        case Err => Err
        case Ok(un) => Ok(cfg[UNATTEND := Obj(un)])
  }

  /** The admin's loop: each secret field of the parsed body is kept, dropped or encrypted in place. */
  method EncryptConfigJson(v: Vault, ivs: Ivs, body: Raw, prev: Raw) returns (r: Result<Fields>)
    ensures r == EncryptConfig(v, ivs, body, prev)
  {
    if body.doc.None? {
      return Err;
    }
    var cfg := body.doc.value;
    if Unattend(cfg).None? {
      return Ok(cfg);
    }
    var prevUn := PrevUnattend(prev);
    var was := Unattend(cfg).value;
    var un := was;
    var todo := un.Keys;
    while todo != {}
      invariant todo <= was.Keys && un.Keys <= was.Keys
      invariant forall k :: k in todo ==> k in un && un[k] == was[k]
      invariant forall k :: k in was && k !in todo ==>
                  && (IsSecretField(k) ==> Stored(v, ivs, was, prevUn, k).Ok?)
                  && (k in un <==> Survives(v, ivs, was, prevUn, k))
                  && (k in un ==> un[k] == StoredValue(v, ivs, was, prevUn, k))
      decreases todo
    {
      var k :| k in todo;
      todo := todo - {k};
      if !IsSecretField(k) {
        continue;
      }
      var stored := ResolveSecret(v, ivs(k), AsText(un[k]), Lookup(prevUn, k));
      assert stored == Stored(v, ivs, was, prevUn, k);
      if stored.Err? {
        return Err;
      }
      if stored.value == [] {
        un := un - {k};
      } else {
        un := un[k := Str(stored.value)];
      }
    }
    assert un == SaveUnattend(v, ivs, was, prevUn).value;
    r := Ok(cfg[UNATTEND := Obj(un)]);
  }

  // ---- read path ----

  function MaskValue(k: string, j: Json): Json {
    if j.Str? && IsSecretField(k) && j.s != [] then Str(KEEP) else j
  }

  function MaskUnattend(un: Fields): Fields {
    map k | k in un :: MaskValue(k, un[k])
  }

  /** What a config GET returns. */
  function MaskConfig(raw: Raw): Result<Fields> {
    if raw.doc.None? then Err
    else
      var cfg := raw.doc.value;
      Ok(if Unattend(cfg).None? then cfg else cfg[UNATTEND := Obj(MaskUnattend(Unattend(cfg).value))])
  }

  method MaskConfigJson(raw: Raw) returns (r: Result<Fields>)
    ensures r == MaskConfig(raw)
  {
    if raw.doc.None? {
      return Err;
    }
    var cfg := raw.doc.value;
    if Unattend(cfg).None? {
      return Ok(cfg);
    }
    var was := Unattend(cfg).value;
    var un := was;
    var todo := un.Keys;
    while todo != {}
      invariant todo <= was.Keys == un.Keys
      invariant forall k :: k in un ==> un[k] == if k in todo then was[k] else MaskValue(k, was[k])
      decreases todo
    {
      var k :| k in todo;
      todo := todo - {k};
      if un[k].Str? && IsSecretField(k) && un[k].s != [] {
        un := un[k := Str(KEEP)];
      }
    }
    assert un == MaskUnattend(was);
    r := Ok(cfg[UNATTEND := Obj(un)]);
  }

  // ---- which fields are secret, letter by letter ----

  /** The name ends in "pass", each letter in either case; the long s counts as one. */
  predicate SpellsPass(k: string) {
    && |k| >= 4
    && (k[|k| - 4] == 'p' || k[|k| - 4] == 'P')
    && (k[|k| - 3] == 'a' || k[|k| - 3] == 'A')
    && (k[|k| - 2] == 's' || k[|k| - 2] == 'S' || k[|k| - 2] == '\U{017F}')
    && (k[|k| - 1] == 's' || k[|k| - 1] == 'S' || k[|k| - 1] == '\U{017F}')
  }

  lemma SecretNames(k: string)
    ensures IsSecretField(k) <==> SpellsPass(k)
  {
    if |k| >= 4 {
      UpperOf(k[|k| - 4]);
      UpperOf(k[|k| - 3]);
      UpperOf(k[|k| - 2]);
      UpperOf(k[|k| - 1]);
    }
  }

  lemma UpperOf(c: char)
    ensures Upper(c) == 'P' <==> c == 'p' || c == 'P'
    ensures Upper(c) == 'A' <==> c == 'a' || c == 'A'
    ensures Upper(c) == 'S' <==> c == 's' || c == 'S' || c == '\U{017F}'
  {
  }

  /** What a save leaves of one field of the unattend block. A field whose name spells "pass" is dropped when blank or no
      string; KEEP takes what the previous file has; anything else is stored sealed if there is a key. Every other
      field is stored as it is. */
  lemma SaveByName(v: Vault, ivs: Ivs, body: Raw, prev: Raw, k: string)
    requires EncryptConfig(v, ivs, body, prev).Ok? && body.doc.Some?
    requires "unattend" in body.doc.value && body.doc.value["unattend"].Obj? && k in body.doc.value["unattend"].fields
    ensures var (value, cfg) := (body.doc.value["unattend"].fields[k], EncryptConfig(v, ivs, body, prev).value);
            && "unattend" in cfg && cfg["unattend"].Obj?
            && var un := cfg["unattend"].fields;
               && (!SpellsPass(k) ==> k in un && un[k] == value)
               && (SpellsPass(k) && (!value.Str? || value.s == []) ==> k !in un)
               && (SpellsPass(k) && value == Str(B("__KEEP__")) ==>
                     Lookup(un, k)
                     == if AsText(PrevField(prev, k)) == [] then None else Some(Str(AsText(PrevField(prev, k)))))
               && (SpellsPass(k) && value.Str? && value.s != [] && value.s != B("__KEEP__") ==>
                     && k in un && un[k].Str?
                     && (v.master.Some? ==> B("enc:v1:") <= un[k].s)
                     && (v.master.None? ==> un[k] == value)
                     && (B("enc:v1:") <= value.s ==> un[k] == value)
                     && (!(B("enc:v1:") <= value.s) ==> DecryptSecret(v.suite, v.master, un[k].s) == Ok(value.s)))
  {
    SecretNames(k);
    var un := Unattend(body.doc.value).value;
    assert KEEP == B("__KEEP__") && ENC_PREFIX == B("enc:v1:");
    if IsSecretField(k) {
      var incoming := AsText(un[k]);
      assert Stored(v, ivs, un, PrevUnattend(prev), k) == ResolveSecret(v, ivs(k), incoming, Lookup(PrevUnattend(prev), k));
      if incoming != KEEP && incoming != [] {
        DecryptInvertsEncryptSecret(v.suite, v.master, ivs(k), incoming);
      }
    }
  }

  /** The field k of the previous file's unattend block, if that file could be parsed as it is. */
  function PrevField(prev: Raw, k: string): Json {
    if !prev.bom && prev.doc.Some? && "unattend" in prev.doc.value && prev.doc.value["unattend"].Obj?
       && k in prev.doc.value["unattend"].fields
    then prev.doc.value["unattend"].fields[k] else Null
  }

  /** A save and a load touch nothing outside the unattend block, and add no field to it. */
  lemma RestUntouched(v: Vault, ivs: Ivs, body: Raw, prev: Raw)
    requires body.doc.Some?
    ensures var cfg := body.doc.value;
            && (forall out | out in {EncryptConfig(v, ivs, body, prev), MaskConfig(body)} && out.Ok? ::
                  && out.value - {"unattend"} == cfg - {"unattend"}
                  && (Unattend(cfg).None? ==> out.value == cfg)
                  && (Unattend(cfg).Some? ==>
                        Unattend(out.value).Some? && Unattend(out.value).value.Keys <= Unattend(cfg).value.Keys))
            && MaskConfig(body).Ok?
  {
  }

  /** What a load shows of one field: KEEP for a secret that is set, and everything else as it is. */
  lemma MaskByName(raw: Raw, k: string)
    requires raw.doc.Some? && "unattend" in raw.doc.value && raw.doc.value["unattend"].Obj?
    ensures var (un, cfg) := (raw.doc.value["unattend"].fields, MaskConfig(raw).value);
            && "unattend" in cfg && cfg["unattend"].Obj?
            && Lookup(cfg["unattend"].fields, k)
               == if k in un && SpellsPass(k) && un[k].Str? && un[k].s != [] then Some(Str(B("__KEEP__"))) else Lookup(un, k)
  {
    SecretNames(k);
  }

  // ---- masking depends only on which secrets are set ----

  /** Every secret field present is a non-empty string. */
  ghost predicate SecretsSet(cfg: Fields) {
    Unattend(cfg).Some? ==>
      forall k :: k in Unattend(cfg).value && IsSecretField(k) ==> AsText(Unattend(cfg).value[k]) != []
  }

  /** Equal but for the values of secret fields. */
  ghost predicate EqualButSecrets(a: Fields, b: Fields) {
    && a.Keys == b.Keys
    && (forall k :: k in a && k != UNATTEND ==> a[k] == b[k])
    && Unattend(a).Some? == Unattend(b).Some?
    && (UNATTEND in a && Unattend(a).None? ==> a[UNATTEND] == b[UNATTEND])
    && (Unattend(a).Some? ==>
          var (ua, ub) := (Unattend(a).value, Unattend(b).value);
          && ua.Keys == ub.Keys
          && forall k :: k in ua && !IsSecretField(k) ==> ua[k] == ub[k])
  }

  lemma SaveLeavesSecretsSet(v: Vault, ivs: Ivs, body: Raw, prev: Raw)
    requires EncryptConfig(v, ivs, body, prev).Ok?
    ensures SecretsSet(EncryptConfig(v, ivs, body, prev).value)
  {
  }

  /** The editor cannot tell two stored configs apart exactly when they differ only in secret values. */
  lemma MaskSeesOnlySetness(a: Fields, b: Fields)
    requires SecretsSet(a) && SecretsSet(b)
    ensures MaskConfig(Raw(false, Some(a))) == MaskConfig(Raw(false, Some(b))) <==> EqualButSecrets(a, b)
  {
    var ma, mb := MaskConfig(Raw(false, Some(a))).value, MaskConfig(Raw(false, Some(b))).value;
    if EqualButSecrets(a, b) {
      if Unattend(a).Some? {
        assert MaskUnattend(Unattend(a).value) == MaskUnattend(Unattend(b).value);
      }
      assert ma == mb;
    }
    if ma == mb {
      assert ma.Keys == a.Keys && mb.Keys == b.Keys;
      forall k | k in a && k != UNATTEND
        ensures a[k] == b[k]
      {
        assert ma[k] == mb[k];
      }
      if UNATTEND in a {
        assert ma[UNATTEND] == mb[UNATTEND];
        if Unattend(a).Some? {
          var ua, ub := Unattend(a).value, Unattend(b).value;
          assert MaskUnattend(ua).Keys == ua.Keys && MaskUnattend(ub).Keys == ub.Keys;
          forall k | k in ua && !IsSecretField(k)
            ensures k in ub && ua[k] == ub[k]
          {
            assert MaskUnattend(ua)[k] == MaskUnattend(ub)[k];
          }
        }
      }
    }
  }

  // ---- a byte-order mark on the previous file loses kept secrets ----

  /** KEEP preserves a set secret exactly when the file on disk carries no byte-order mark. */
  lemma KeepPreservesExactly(v: Vault, ivs: Ivs, cfg: Fields, prev: Raw, k: string)
    requires Unattend(cfg).Some? && k in Unattend(cfg).value && IsSecretField(k)
    requires Unattend(cfg).value[k] == Str(KEEP)
    requires prev.doc.Some? && Unattend(prev.doc.value).Some? && k in Unattend(prev.doc.value).value
    requires AsText(Unattend(prev.doc.value).value[k]) != []
    requires EncryptConfig(v, ivs, Raw(false, Some(cfg)), prev).Ok?
    ensures var un := Unattend(EncryptConfig(v, ivs, Raw(false, Some(cfg)), prev).value);
            && un.Some?
            && (k in un.value && un.value[k] == Unattend(prev.doc.value).value[k] <==> !prev.bom)
            && (k in un.value <==> !prev.bom)
  {
  }
}
